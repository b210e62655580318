# ST 2110 receiver: verified model

This project models the receive path of libst2110rx, a library that turns the
RTP packets of uncompressed video (RFC 3550 and RFC 4175) into whole frames,
together with the packetising loop of its sending tool. It proves what the
user of the receiver is shown for every sequence of datagrams, well-formed or
not, and what the statistics say about it.

`dafny verify dfyconfig.toml` checks everything.

## How it is built

| module | role |
|---|---|
| Bytes, Overlay | machine integers, network byte order, serial arithmetic; lists of copies into a buffer |
| Wire | one datagram: RTP header, segment headers, where payloads land |
| Stream | the specification: frames, flags and losses as functions of the whole log of accepted packets |
| Assembler | the frame assembler, a class with two arrays, proved to refine Stream |
| Boundaries | partition into frames, meaning of the incomplete flag, timestamps, loss counting |
| OneFrame | one frame after any stream, under loss, repetition and reordering |
| ManyFrames, LossyBroadcast, LossyView | streams with losses in every frame: as packets, from the sender, and as the user sees them |
| RoundTrip | an encoder for RTP and section 4.2 of RFC 4175, inverted by the receiver's parser |
| Placement | what the bytes of an arbitrary datagram can touch |
| Convert | ten-bit groups: packing, unpacking, the conversion loops |
| Sender | colour bars, the line-splitting loop, the tool's own packets |
| Reception, Receiver | the receiver object: assembler, statistics, conversion, user callback |
| Split | frames cut into packets, each decoded and joined again, for both wire formats |
| EndToEnd, EightBit | from images at the sender to frames at the user, ten-bit and eight-bit |
| Stats, Seqlock | the running averages; the statistics lock under any interleaving |
| Lifecycle | start, stop and destroy as a resource ledger |

The centre is a log. `Stream.Deliveries` says, by looking at a whole sequence
of accepted packets, which frames it yields: where each begins and ends, which
timestamp it has, whether it is incomplete; `Stream.Image` says which bytes it
holds. The class `Assembler.Assembler` works packet by packet on buffers, flags
and counters as the C code does. Its `Valid()` equates every one of its fields
with a function of the log, so each theorem about logs is a theorem about every
reachable state of the object. `Receiver.Receiver` does the same for datagrams,
counters and what the user was handed. Wire states the receiver's parsing
without loops; the loops of the code are methods proved against it.

Shifts and masks are written as division and remainder, pointers into a packet
as indices, doubles as reals. Fixed-width arithmetic is explicit: sequence
numbers and gaps modulo 2^16, timestamps and frame numbers modulo 2^32, clock
differences and statistics counters modulo 2^64. The
frame callback is a value that the method returns: a packet delivers at most
one frame, and the buffer handed over is not touched by the rest of the call.

## Properties that do not hold as one might expect

Each of these is kept as the code has it: an input shows that the plain
property fails, and a theorem over all inputs says when it holds.

- Frames are not always single-timestamp. A marker packet that opens a new
  timestamp over an unfinished frame merges the two, unflagged
  (`Boundaries.MarkerMergesFrames`). A frame that lost its marker is flushed on
  its own if and only if the next packet has no marker and its timestamp differs
  from that of the frame before (`OneFrame.LostMarkerMeansFlush`). Frames stay
  separate if and only if every change of timestamp is clean
  (`Boundaries.TimestampsSeparateIffClean`).
- An unflagged frame need not be whole: it can lack its head. For every stream
  before it, that happens exactly if its packets arrive in order from a position
  other than the first, and in front of them either a flush takes the gap, or
  the stream begins, or the number happens to follow on from the packet before
  (`OneFrame.UnflaggedButPartial`). The flush is an everyday case
  (`OneFrame.FlushHidesMissingHead`, `OneFrame.HeadlessFrameIsUnflagged`), the
  beginning too (`OneFrame.LossesAlone`); the number follows on only over a loss
  of a multiple of 2^16 packets (`OneFrame.LostWrapIsUnflagged`). After a marker
  whose number the frame carries on, unflagged does mean whole, in order and
  without repetition (`OneFrame.UnflaggedIffExactlyAsSent`).
- A segment can overwrite other lines than its own. The code compares with the
  end of the buffer; a segment stays in its line if and only if it ends within
  the stride (`Placement.SegmentStaysInLine`, `Placement.SegmentCanSpill`).
- The sending tool's packets are not read as meant (`Sender.ToolPacketIsMisread`).
  The tool sends no extended sequence number, which the receiver skips, so that
  the header is read two bytes late: the length from the line, the line from the
  offset, and the bit for another header from the first pixel
  (`Sender.ToolHeaderIsMisread`, `Sender.ToolPixelsDecideContinuation`). With
  that number put in, length, line and offset would come through, but the tool
  sets the continuation bit for a line that goes on in the next packet, which
  announces another header in this one (`Sender.ToolHeaderAnnouncesAnother`).
  The end-to-end theorems therefore take the tool's image, packing and split and
  put them into the layout of section 4.2 of RFC 4175; the code's comments call
  it section 3.1.
- The averages in a statistics snapshot can be torn, by a reader that gives up
  after 1001 attempts (`Seqlock.GivingUpCanTear`). If both loads of the sequence
  agree on an even number they are the pair in memory at the second load
  (`Seqlock.SnapshotIsConsistent`, `Seqlock.SnapshotIsCurrent`), and even torn
  each value is an average of its own, from between the two loads
  (`Seqlock.EachValueIsAnAverage`).
- A snapshot can show more dropped than received frames
  (`Seqlock.SnapshotCanShowMoreDropsThanFrames`): if and only if, among the
  frames recorded between its two loads, more were incomplete than were complete
  among all frames before (`Seqlock.SnapshotDropsExceedFrames`).

## Model

| member | source | states |
|---|---|---|
| EndToEnd.ImageArrives | libst2110rx/src/rx_rfc4175.c:151-294 | for every accepted size and every image, packed, split and numbered as the sender does, in the layout of RFC 4175: after any earlier stream that ended with the marker numbered before, or none, the user is handed exactly one more frame, unflagged, whose bytes 4n to 4n + 3 are the quarters of Cb, Y0, Cr and Y1 of group n, with the right size, number and time, and the next picture can follow |
| EndToEnd.BroadcastArrives | libst2110rx/tools/st2110tx-test.c:304-357 | any number of pictures sent back to back, across any number of sequence wraps, arrive each once, in order, whole and unflagged |
| EndToEnd.ReceiverShowsBroadcast | libst2110rx/src/rx_core.c:81-128 | the same for the receiver object after any earlier datagrams; its conversion buffer then holds the last picture |
| Split.FrameWithLosses | libst2110rx/src/rx_rfc4175.c:191-291 | any datagrams of an encoded frame, some lost, repeated or reordered, with or without the last, after any datagrams whatever: what is delivered and what stays pending, the bytes being the image under what arrived and what was held over (zeros, usually) elsewhere; for losses alone after the preceding marker, one frame flagged exactly when a packet is missing |
| Split.FrameWithoutLosses | libst2110rx/src/rx_rfc4175.c:260-291 | with all packets the delivered bytes are the sent ones, unflagged, and the following frame joins without a gap |
| Split.ArrivalsAreDecoded | libst2110rx/src/rx_rfc4175.c:173-284 | every subset of a frame's datagrams is decoded to exactly the packets meant |
| Split.ChunkIsDecoded | libst2110rx/src/rx_rfc4175.c:275-282 | line, offset, payload, marker and number of every chunk of the sender come through to one copy at the chunk's byte position |
| Split.PacketsOfSplit | libst2110rx/tools/st2110tx-test.c:308-343 | the packets of a split frame are pieces of it at their places, cover it, are numbered consecutively and carry one marker, at the end |
| EndToEnd.PacketsPerFrame | libst2110rx/tools/st2110tx-test.c:247-248 | at both packet sizes no accepted frame needs more than 2^16 packets, so numbering inside a frame is unambiguous |
| EightBit.EightBitImageArrives | libst2110rx/src/rx_rfc4175.c:35-294 | for every accepted size and every eight-bit frame, split at will into whole pieces: after any such stream the user is handed exactly the sent bytes, once, unflagged, with a line size of twice the width, and the next frame can follow |
| EightBit.ReceiverPassesEightBit | libst2110rx/src/rx_core.c:97-104 | the same for the receiver object: the assembler's own buffer, lent unconverted, holds the sent bytes |
| EndToEnd.PlanSplits | libst2110rx/tools/st2110tx-test.c:308-343 | what the sender sends of a frame are pieces of it that reach all of it, fit the header fields and end the frame once |
| Split.GroupSplitSplits | libst2110rx/src/rx_rfc4175.c:275-282 | so is a frame of either format cut at whole groups, any number from 274 on to a packet |
| Assembler.Assembler.ProcessPacket | libst2110rx/src/rx_rfc4175.c:151-294 | for arbitrary bytes every field stays the stated function of the accepted packets; the frames handed over are exactly the new deliveries of the log, at most one; the loss reported is the 16-bit gap; without a delivery the last delivered buffer and its contents are untouched |
| Assembler.Assembler.DeliverFrame | libst2110rx/src/rx_rfc4175.c:117-149 | the two buffers change roles, the frame handed over is the filled one with the current number and flag and a time in nanoseconds less than one below the reading of a 90 kHz clock, the new fill buffer is all zero and the flag cleared |
| Assembler.Assembler.CopySegments | libst2110rx/src/rx_rfc4175.c:260-284 | the payload walk with its two skips and its early exit leaves the overlay of exactly the segments that land, in order |
| Assembler.CopyBytes | libst2110rx/src/rx_rfc4175.c:282 | the destination is overwritten by the slice at its place and nowhere else |
| Assembler.Assembler.PlaceSegments | libst2110rx/src/rx_rfc4175.c:221-285 | headers then payloads: the fill buffer becomes the overlay of the datagram's decoded copies, nothing else changes |
| Assembler.Assembler.NoteGap | libst2110rx/src/rx_rfc4175.c:191-200 | any number but the successor modulo 2^16 flags the frame and counts the modular distance; the first packet never does |
| Assembler.Assembler.CloseOldFrame | libst2110rx/src/rx_rfc4175.c:202-209 | a new timestamp hands over the old frame with the old timestamp, flagged, unless it was delivered or the packet has a marker |
| Assembler.Assembler.BeginPacket | libst2110rx/src/rx_rfc4175.c:191-213 | gap, flush and the new last packet in the order of the code, so that a gap on a flushing packet is charged to the old frame |
| Assembler.Assembler.Advance | libst2110rx/src/rx_rfc4175.c:191-293 | one accepted packet moves all fields as the step function says and hands over what it says |
| Assembler.ParseSegmentHeaders | libst2110rx/src/rx_rfc4175.c:230-258 | the loop finds exactly the declaratively stated header list, empty when it runs past the datagram or asks for a ninth header |
| Assembler.NothingLandsPastTheEnd | libst2110rx/src/rx_rfc4175.c:267-273 | once a payload ends outside the datagram, even after an out-of-range line moved the cursor there, no later segment lands, so the early exit loses nothing |
| Assembler.NextExtendsLog | libst2110rx/src/rx_rfc4175.c:187-293 | stepping the fields commutes with appending to the log: fields, frames and loss are those of the longer log |
| Assembler.FieldsTellFlush | libst2110rx/src/rx_rfc4175.c:191-205 | the flags last_seq, last_ts, has_prev_packet and frame_delivered decide gap and flush exactly as the whole log does |
| Assembler.Assembler.constructor | libst2110rx/src/rx_rfc4175.c:46-64 | two fresh zeroed buffers of stride times height and the state of the empty log |
| Assembler.InitAssembler | libst2110rx/src/rx_rfc4175.c:12-65 | fails exactly for zero, odd, too large, unsupported or no memory; otherwise a valid assembler with groups of 4 bytes and lines of width * 2 for UYVY, 5 and width / 2 * 5 for ten bits, in the empty state |
| Stream.RunMarkedSnoc | libst2110rx/src/rx_rfc4175.c:202-209 | the current run of equal timestamps contains a marker if and only if this packet has one, or continues a run that had one |
| Stream.GappedSnoc | libst2110rx/src/rx_rfc4175.c:191-200 | how one packet adds to the gaps of the frame being filled, and which gap is not charged to it |
| Stream.FlushStep | libst2110rx/src/rx_rfc4175.c:202-209 | a flush delivers what was pending, without the flushing packet, which alone is pending next |
| Stream.MarkerStep | libst2110rx/src/rx_rfc4175.c:287-291 | a marker delivers what was pending together with the marker packet and leaves nothing pending |
| Stream.PlainStep | libst2110rx/src/rx_rfc4175.c:211-285 | any other packet delivers nothing and joins the pending frame |
| OneFrame.BodyArrives | libst2110rx/src/rx_rfc4175.c:191-213 | unmarked packets of one timestamp after any stream: what the first of them flushes, and that all stay pending |
| Boundaries.StreamPartition | libst2110rx/src/rx_rfc4175.c:202-291 | in every run the packets behind the deliveries and then the pending ones are exactly the accepted ones, in order, and no delivery is empty |
| Boundaries.IncompleteMeansGapOrNoMarker | libst2110rx/src/rx_rfc4175.c:139-207 | in every run a frame is flagged if and only if no marker ended it or some packet of it was not the successor of the packet before, not counting the first packet ever or a first packet that flushed |
| Boundaries.TimestampsSeparateIffClean | libst2110rx/src/rx_rfc4175.c:202-213 | no frame mixes timestamps if and only if each timestamp change follows a marker, or is made by an unmarked packet after a timestamp that had no marker |
| Boundaries.DeliveredTimestamp | libst2110rx/src/rx_rfc4175.c:140-144 | a frame's timestamp is its last packet's, all its packets' in a clean stream; 90000 times the time handed over is timestamp times 10^9 less a remainder below 90000, and that product fits 64 bits |
| Boundaries.MarkerMergesFrames | libst2110rx/src/rx_rfc4175.c:203-209 | a run of two packets that is delivered as one unflagged frame although the timestamps differ |
| Boundaries.PendingIsEmptyAfterMarker | libst2110rx/src/rx_rfc4175.c:287-291 | nothing is pending exactly at the start and after a marker |
| Boundaries.LossTelescopes | libst2110rx/src/rx_rfc4175.c:191-200 | over every run the total loss is last minus first number minus the packets between, modulo 2^16, whatever was lost, repeated or reordered |
| Boundaries.LossIsExact | libst2110rx/src/rx_rfc4175.c:191-200 | while unwrapped numbers ascend and no gap reaches 2^16 packets the total is exactly the number missing, across wraps |
| OneFrame.FrameAfterAnything | libst2110rx/src/rx_rfc4175.c:191-291 | for every stream before it and every arrival of a sent frame, with losses, repetition, reordering and with or without its marker: the flush of the old frame, what is held over, the one delivery with its exact flag, or what stays pending |
| OneFrame.FrameIsDelivered | libst2110rx/src/rx_rfc4175.c:260-291 | packets of one timestamp with the marker last become exactly one more delivery of exactly those packets, after any stream that ended with a marker |
| OneFrame.UnflaggedButPartial | libst2110rx/src/rx_rfc4175.c:191-205 | for every stream before it: a marked frame comes out unflagged but not whole if and only if its arrivals run in order from a later position and the first of them flushes, or opens the stream, or carries the number after the packet before it with no gap pending |
| OneFrame.LostWrapIsUnflagged | libst2110rx/src/rx_rfc4175.c:192-194 | a run in which 2^16 packets are lost in front of the first arrival and the frame is delivered without its head and without a flag |
| OneFrame.UnflaggedIffExactlyAsSent | libst2110rx/src/rx_rfc4175.c:191-200 | after any frame whose marker came, a frame is unflagged if and only if its packets arrived in order and the first carries the number after that marker; if the frame itself carries it, that means all, once and in order |
| OneFrame.FlushHidesMissingHead | libst2110rx/src/rx_rfc4175.c:198-205 | when the first arrival flushes the frame before, that frame is delivered flagged and this one is flagged only for holes after its first arrival: it lacks its head unflagged exactly if its arrivals run in order from a later position |
| OneFrame.HeadlessFrameIsUnflagged | libst2110rx/src/rx_rfc4175.c:198-205 | a run that delivers a frame without its first packet and without a flag |
| OneFrame.LostMarkerMeansFlush | libst2110rx/src/rx_rfc4175.c:202-209 | a frame whose marker is lost is delivered on its own, flagged, by the first packet of another timestamp if and only if that packet has no marker and the frame's timestamp differs from the one before; otherwise it goes out with the marker packet or becomes part of the next frame |
| OneFrame.OrderAndRepetitionDoNotShow | libst2110rx/src/rx_rfc4175.c:260-291 | if overlapping segments agree, order and repetition of a frame's unmarked packets do not change the delivered bytes, and the flag is that of the numbers in the order of arrival |
| OneFrame.LossShowsAsZerosAndFlag | libst2110rx/src/rx_rfc4175.c:191-291 | whatever arrives with the marker last, unless an earlier frame is held over, the frame is the image under what arrived and zero elsewhere, with the exact flag after a marker, at the start and after a flush |
| OneFrame.LossesAlone | libst2110rx/src/rx_rfc4175.c:191-291 | for losses alone the flag is set exactly when a packet is missing; before the first packet ever nothing counts as missing |
| OneFrame.PartArrives | libst2110rx/src/rx_rfc4175.c:282 | any arrivals of a frame paint the image under their segments and leave what was held over elsewhere |
| OneFrame.GappedMeansHoles | libst2110rx/src/rx_rfc4175.c:191-200 | inside a frame of at most 2^16 packets the modular gap test finds a gap exactly where an arrival is not the packet after the one before it |
| ManyFrames.AnyStream | libst2110rx/src/rx_rfc4175.c:191-291 | any stream of frames on any earlier stream, with any losses, repetition and reordering inside the frames, any markers and whole frames lost, any timestamps and numbers: the deliveries are those of an account frame by frame that knows of the past only the last packet and what is pending |
| ManyFrames.LossyStream | libst2110rx/src/rx_rfc4175.c:191-291 | on any earlier stream that nothing trails, frames that can be told apart give one delivery each, of exactly their arrivals, flagged exactly if the marker is lost, the arrivals have a hole, or they do not carry on the numbers of a frame before whose marker came, wholly lost frames included |
| ManyFrames.BurstStep | libst2110rx/src/rx_rfc4175.c:191-291 | the arrivals of one frame, on any stream: their deliveries and what they leave behind |
| LossyBroadcast.LossyBroadcastArrives | libst2110rx/tools/st2110tx-test.c:304-357 | from the sender: after any datagrams whatever, of any number of pictures sent back to back any datagrams may be lost, repeated or reordered inside their picture, whole pictures included; the deliveries are those of the account frame by frame |
| LossyBroadcast.LossyBroadcastApart | libst2110rx/tools/st2110tx-test.c:304-357 | if the pictures can be told apart, one delivery for each of which something arrives, with the exact flag |
| LossyView.UserSeesParts | libst2110rx/src/rx_core.c:81-128 | of such a broadcast the user is shown one frame for each picture of which something arrives, in order and with its flag, every group of it the picture's samples where its chunk came and zero elsewhere |
| LossyView.ReceiverShowsParts | libst2110rx/src/rx_core.c:81-152 | the same for the receiver object |
| LossyView.PartConverts | libst2110rx/src/rx_convert.c:16-35 | a frame under some of its chunks converts to the groups that came and zeros |
| Overlay.SlicesRebuildImage | libst2110rx/src/rx_rfc4175.c:282 | pieces of an image copied in any order and with repetition leave the image where one fell and the old bytes elsewhere |
| Overlay.OnlyTheSetOfWritesMatters | libst2110rx/src/rx_rfc4175.c:282 | for copies that agree where they overlap, only the set of them matters |
| Wire.ChainIsUnique | libst2110rx/src/rx_rfc4175.c:233-258 | a datagram has at most one well-formed header list |
| Wire.NoChain | libst2110rx/src/rx_rfc4175.c:239-242 | a list that continues past the datagram or past eight headers is none |
| Wire.Decode | libst2110rx/src/rx_rfc4175.c:173-284 | for arbitrary bytes no copy taken from a datagram leaves the frame buffer |
| Wire.RtpFieldsOnTheWire | libst2110rx/src/rx_rfc4175.c:78-115 | number, timestamp, marker and payload start of any accepted datagram as numbers of its bytes, contributing sources and extension included |
| Wire.SegmentFieldsOnTheWire | libst2110rx/src/rx_rfc4175.c:244-254 | length, line, offset and continuation as numbers of the six bytes, the top bits apart |
| Wire.TargetIsProduct | libst2110rx/src/rx_rfc4175.c:275-277 | a segment lands at line * stride + offset / 2 * group, the stride being width / 2 groups |
| RoundTrip.RtpHeaderRoundTrip | libst2110rx/src/rx_rfc4175.c:78-115 | for any version bits, up to 15 contributing sources and any extension the parser recovers sequence number, timestamp, marker and payload start |
| RoundTrip.DatagramRoundTrip | libst2110rx/src/rx_rfc4175.c:185-284 | one to eight segments, any header fields and any trailing bytes: each payload comes back with its own header, whatever the extended sequence number |
| RoundTrip.NineSegmentsLandNothing | libst2110rx/src/rx_rfc4175.c:239-241 | a list of nine or more headers places nothing, but number, timestamp and marker still count; with one to eight RoundTrip.DatagramRoundTrip applies |
| Placement.ArithmeticFits | libst2110rx/src/rx_rfc4175.c:275-277 | for accepted sizes and any header fields stride, buffer size and the end of a placement stay below 2^32 |
| Placement.SegmentStaysInLine | libst2110rx/src/rx_rfc4175.c:275-282 | a segment touches its own line only, if and only if its offset in bytes plus its length fits the stride |
| Placement.OtherLinesSurvive | libst2110rx/src/rx_rfc4175.c:260-284 | for arbitrary bytes: if all segments read end in their lines, lines that no header names keep every byte |
| Placement.SegmentCanSpill | libst2110rx/src/rx_rfc4175.c:277-282 | in every accepted frame of two lines or more a segment of five or six bytes, one too long for the last group of line 0, overwrites the next line |
| Convert.GroupCodec | libst2110rx/tools/st2110tx-test.c:136-143 | packing and unpacking are inverse both ways between four ten-bit samples and five bytes |
| Convert.PackIsFortyBits | libst2110rx/tools/st2110tx-test.c:136-143 | the five bytes read as one big-endian number are Cb * 2^30 + Y0 * 2^20 + Cr * 2^10 + Y1 |
| Convert.PackGroup | libst2110rx/tools/st2110tx-test.c:136-143 | writes the five bytes of the group and nothing else |
| Convert.ConvertGroup | libst2110rx/src/rx_convert.c:22-30 | the four bytes are Cb, Y0, Cr and Y1 of the source group shifted right by two, nothing else changes |
| Convert.ConversionIsTopBits | libst2110rx/src/rx_convert.c:22-30 | for arbitrary bytes, with N the 40-bit number of source group n: output bytes 4n to 4n + 3 are N / 2^32, N / 2^22 % 256, N / 2^12 % 256 and N / 4 % 256 |
| Convert.ConvertRow | libst2110rx/src/rx_convert.c:21-34 | the strided inner loop overwrites exactly the row with its converted groups |
| Convert.ConvertBe10ToUyvy | libst2110rx/src/rx_convert.c:5-36 | for any strides, overlapping rows included, the destination becomes the overlay of the converted rows in order |
| Convert.OutsideRowsStays | libst2110rx/src/rx_convert.c:16-35 | no byte outside the rows' 2 * width bytes changes, whatever the strides |
| Convert.RowsApartAreConverted | libst2110rx/src/rx_convert.c:16-35 | with strides that keep rows apart every row holds its converted samples |
| Convert.BackToBackIsWhole | libst2110rx/src/rx_core.c:106-112 | with the strides the receiver uses the whole buffer is the per-group conversion of the whole frame |
| Convert.PackedImageConverts | libst2110rx/src/rx_convert.c:16-35 | of a packed image output bytes 4n to 4n + 3 are Cb / 4, Y0 / 4, Cr / 4 and Y1 / 4 of group n |
| Sender.GenerateColorbars | libst2110rx/tools/st2110tx-test.c:145-179 | the frame becomes the packed picture of eight bars, for any width and height |
| Sender.EightBars | libst2110rx/tools/st2110tx-test.c:147-171 | white, yellow, cyan, green, magenta, red, blue and black with their sample values, an eighth of the groups each, one where there are fewer than eight, and what is left over to black |
| Sender.WriteRtpHeader | libst2110rx/tools/st2110tx-test.c:181-195 | the twelve bytes are the RTP header of RFC 3550 with these fields, so the receiver reads them back |
| Sender.SenderBytes | libst2110rx/tools/st2110tx-test.c:181-195 | version 2, payload type 96, marker bit, number, timestamp and source byte by byte |
| Sender.WritePacket | libst2110rx/tools/st2110tx-test.c:317-327 | header, segment header and payload of one packet in the reused buffer |
| Sender.SendLine | libst2110rx/tools/st2110tx-test.c:313-343 | the inner loop sends exactly the planned chunks of a line with consecutive numbers modulo 2^16 taken from the 32-bit counter |
| Sender.SendFrame | libst2110rx/tools/st2110tx-test.c:308-344 | one frame of the outer loop sends exactly the plan of the frame, numbered through |
| Sender.LineIsSplitExactly | libst2110rx/tools/st2110tx-test.c:309-343 | the chunks of a line are whole groups, concatenate to the line, each pixel offset converts back to the byte offset, and only the last ends the line |
| Sender.PlanCoversFrame | libst2110rx/tools/st2110tx-test.c:308-327 | each chunk carries the bytes its line and offset name, and together they carry every byte |
| Sender.PlanEndsOnce | libst2110rx/tools/st2110tx-test.c:315-319 | exactly one chunk of a frame, the last, has the marker |
| Sender.PlanCount | libst2110rx/tools/st2110tx-test.c:313-314 | at most k packets for a line of at most k maximal payloads, hence k * height for a frame |
| Sender.MaxSegmentIsLargest | libst2110rx/tools/st2110tx-test.c:247-248 | the payload is whole five-byte groups that fit the packet beside 46 bytes of headers, and one more group would not fit |
| Sender.ToolPacketHasRtpHeader | libst2110rx/tools/st2110tx-test.c:181-195 | the receiver recovers number, timestamp and marker from the tool's packets |
| Sender.ToolHeaderIsMisread | libst2110rx/tools/st2110tx-test.c:321-326 | the receiver takes the tool's line number for a length and its offset for a line |
| Sender.ToolPixelsDecideContinuation | libst2110rx/tools/st2110tx-test.c:321-327 | the bit for another header is read from the first pixel byte of the tool's packet |
| Sender.ToolHeaderAnnouncesAnother | libst2110rx/tools/st2110tx-test.c:321-326 | behind an extended sequence number the tool's header would be read at its place, announcing another header exactly when the line goes on in the next packet |
| Sender.ToolPacketIsMisread | libst2110rx/tools/st2110tx-test.c:319-327 | no copy made from any packet of the tool is as long as its payload |
| Receiver.Receiver.ProcessPacket | libst2110rx/src/rx_core.c:130-152 | after every datagram counters and handed frames are those of all datagrams so far, at most one frame was added, and the memory last lent to the user is unchanged unless one was |
| Receiver.Receiver.Assemble | libst2110rx/src/rx_core.c:137-144 | what the assembler delivers for one datagram is what the account of the longer log gains |
| Receiver.Receiver.HandOver | libst2110rx/src/rx_core.c:81-128 | eight-bit frames pass unchanged, ten-bit frames are converted when UYVY is wanted, other wire formats yield nothing |
| Receiver.Receiver.ConvertWhole | libst2110rx/src/rx_core.c:106-112 | the conversion buffer becomes the per-group conversion of the whole delivered frame, whatever it held |
| Receiver.Receiver.ProcessAll | libst2110rx/src/rx_core.c:248-257 | a run over any datagrams keeps the invariant and takes them all, in order |
| Receiver.NoFrameIsSkipped | libst2110rx/src/rx_core.c:116-120 | no frame that a receiver can deliver reaches the branch that skips unsupported formats |
| Receiver.AccountSnoc | libst2110rx/src/rx_core.c:130-152 | one accepted packet adds to the account its gap and at most one frame, and nothing else |
| Receiver.BooksBalance | libst2110rx/src/rx_core.c:130-152 | in every state frames received equal callbacks, dropped equal flagged callbacks, packets received equal datagrams and packets lost equal the sum of gaps, as true numbers below 2^64 and modulo 2^64 beyond; frame numbers count callbacks modulo 2^32, and there are at most as many frames as packets |
| Receiver.SameTimestamp | libst2110rx/src/rx_core.c:73-79 | the timestamp that the statistics take from a datagram is the one the assembler reads, and 0 for fewer than eight bytes |
| Receiver.Create | libst2110rx/src/rx_core.c:275-324 | fails exactly for the stated configurations or when an allocation fails; otherwise the receiver is valid and all its parts are new |
| Receiver.Serve | libst2110rx/src/rx_core.c:244-324 | from creation through any datagrams: the user has been handed exactly what the datagrams say, and the counters agree |
| Receiver.Receiver.constructor | libst2110rx/src/rx_core.c:297-323 | a fresh conversion buffer apart from the assembler's two, and books of nothing received |
| Reception.FramesAreNumbered | libst2110rx/src/rx_core.c:90-95 | the k-th frame shown is the k-th delivery with its flag, the number k modulo 2^32 and the time its timestamp is on a 90 kHz clock, rounded down to nanoseconds |
| Reception.SecondsAreSeconds | libst2110rx/src/rx_rfc4175.c:140 | frames whose timestamps are 90000 ticks apart are shown exactly 10^9 nanoseconds apart |
| Reception.UserFrameShape | libst2110rx/src/rx_core.c:97-125 | eight-bit frames are handed over as delivered, with lines of 2 * width; ten-bit ones converted as UYVY with lines of 2 * width, or as delivered in their own format with lines of width / 2 * 5; in every case height lines |
| Reception.AcceptedConcat | libst2110rx/src/rx_rfc4175.c:173-187 | datagrams that decode extend the log by exactly their packets |
| Stats.StatsState.RecordPacket | libst2110rx/src/rx_stats.c:30-53 | both averages are those of all arrivals so far, the lock has made two steps for each sample and the packet counter one for each packet, modulo 2^64, and the other counters are untouched |
| Stats.StatsState.UpdateAverages | libst2110rx/src/rx_stats.c:36-48 | the write under the lock leaves the averages over one sample more and the lock two steps further |
| Stats.AverageIsWeightedSum | libst2110rx/src/rx_stats.c:45-46 | the recursive filter is the exponentially weighted sum of all samples |
| Stats.AverageIsBounded | libst2110rx/src/rx_stats.c:45-46 | the average of samples that are not negative lies between zero and the largest |
| Stats.AverageApproaches | libst2110rx/src/rx_stats.c:45-46 | for a constant signal the error shrinks geometrically |
| Stats.GapsOfAClock | libst2110rx/src/rx_stats.c:37 | for a clock that does not run backwards every gap sample is the time between two arrivals |
| Stats.JitterIsDrift | libst2110rx/src/rx_stats.c:37-42 | for such a clock and any timestamps nine times a jitter sample differs by less than 9 from the amount by which nine times the elapsed microseconds and a hundred times the timestamp step modulo 2^32 differ |
| Stats.SteadyStreamHasNoJitter | libst2110rx/src/rx_stats.c:36-45 | if every arrival gap matches its timestamp step to within a microsecond the jitter average stays below two microseconds |
| Stats.RtpStepIsExact | libst2110rx/src/rx_stats.c:38 | a forward timestamp step below 2^32 is measured exactly across the wrap |
| Stats.AveragesOfAClock | libst2110rx/src/rx_stats.c:36-52 | for every such clock and any timestamps both averages are the weighted sums of their samples, with shares 1/16 and 1/256, and lie between zero and their largest sample |
| Seqlock.RunKeepsInv | libst2110rx/src/rx_stats.c:44-91 | the invariant of writer, readers and history holds in every state of every interleaving |
| Seqlock.SnapshotIsConsistent | libst2110rx/src/rx_stats.c:83-91 | in every interleaving a reader that is done with at most 1000 attempts has equal even loads, and equal even loads mean both averages over the same first samples, half that number of them; none makes more than 1001 attempts |
| Seqlock.GaveUpAfterFailures | libst2110rx/src/rx_stats.c:83-91 | in every interleaving a reader that is done with anything else has made exactly 1001 attempts, each ended by a second load that was odd or not the first |
| Seqlock.FailedRoundRetries | libst2110rx/src/rx_stats.c:83-91 | after each of the first 1000 failed rounds the reader is back in the loop, after the next one it is done |
| Seqlock.QuietRoundEnds | libst2110rx/src/rx_stats.c:88-91 | a round with two equal even loads ends the reader with the pair it read |
| Seqlock.EveryReaderEnds | libst2110rx/src/rx_stats.c:83-91 | in every interleaving a reader has left the loop after at most 4006 accesses of its own, four for each of 1001 attempts and one for each of two counters, whatever the other threads do |
| Seqlock.SnapshotIsCurrent | libst2110rx/src/rx_stats.c:83-91 | in every interleaving a consistent snapshot is the pair that memory held at the reader's last load, the averages over all samples by then, with no write under way |
| Seqlock.EachValueIsAnAverage | libst2110rx/src/rx_stats.c:84-90 | in every interleaving, given up or not, each of the two values is the average over some first samples, at least those complete at the first load of the round and at most those begun at the second, the gap at most one sample behind the jitter |
| Seqlock.PublishedIsAverages | libst2110rx/src/rx_stats.c:44-47 | each pair published under the lock is the averages over the samples so far |
| Seqlock.RecordIsPublished | libst2110rx/src/rx_stats.c:30-53 | between packets the record holds the sequence number and pair that the lock machine publishes for the same samples, so a consistent snapshot is the record after some whole packet |
| Seqlock.GivingUpCanTear | libst2110rx/src/rx_stats.c:88-90 | a run, with a sample that two real packets give, in which a reader uses up its attempts and returns the new jitter beside the old gap: the averages neither over any published samples nor over those and the one being written |
| Seqlock.DropsAreFrames | libst2110rx/src/rx_stats.c:57-60 | in every state of every interleaving dropped frames do not exceed received ones in memory, nor a snapshot's drops the frames received by then |
| Seqlock.SnapshotDropsExceedFrames | libst2110rx/src/rx_stats.c:57-78 | in every interleaving a finished snapshot shows more drops than frames if and only if, among the frames recorded after its first load and counted by its second, more were incomplete than were complete among all before; never if no frame was recorded between the loads |
| Seqlock.SnapshotCanShowMoreDropsThanFrames | libst2110rx/src/rx_stats.c:77-78 | a run with a finished snapshot of one drop and no frame |
| Lifecycle.Allocate | libst2110rx/src/rx_core.c:292-320 | creation allocates all five blocks, or frees every block it got |
| Lifecycle.Handle.Start | libst2110rx/src/rx_core.c:326-402 | acquires everything or reports the first failure and is stopped again with the ledger balanced; does nothing on a running receiver |
| Lifecycle.CodeIsFirstFailure | libst2110rx/src/rx_core.c:335-398 | the code names the first acquisition that fails, in the order of the code, and success means that none did |
| Lifecycle.Handle.OpenSocket | libst2110rx/src/rx_core.c:335-348 | socket layer and socket, or all given back |
| Lifecycle.Handle.OpenWindowsParts | libst2110rx/src/rx_core.c:350-378 | pool and completion port, or all given back |
| Lifecycle.Handle.Abandon | libst2110rx/src/rx_core.c:381-398 | when no thread can be made everything acquired by the start is given back |
| Lifecycle.Handle.Stop | libst2110rx/src/rx_core.c:404-445 | everything but the receiver's memory blocks is released, each resource once; a second stop changes nothing |
| Lifecycle.Handle.Destroy | libst2110rx/src/rx_core.c:447-458 | all that was ever acquired has been released |
| Lifecycle.UseAndDestroy | libst2110rx/src/rx_core.c:326-458 | for any sequence of starts and stops with any outcomes, then destruction, acquisitions and releases agree for every kind of resource, each memory block included, on both platforms |

## Left out

- Sockets, multicast membership and logging (rx_socket.c, rx_log): foreign calls; Lifecycle takes each as a success or a failure.
- The receive loops, thread priority and completion batching: a run is a sequence of datagrams. The C11 memory model is replaced by one atomic step for each access.
- Pointer rules of C (forming a pointer past the end of a packet, stack arrays) and IEEE rounding: indices and reals.
- NULL arguments of the C functions, and rx_assembler_free apart from its place in the ledger.
- Command line, pacing, random drops and printing of the tools, and the OBS plugin.
- Reading the clock: arrival times are an input.
- Seqlock.SnapshotIsConsistent: leaves out the wrap of the sequence number, which would take 2^63 writes during one read, and the loads of packets_received and packets_lost, two more independent counters.
- OneFrame.FrameAfterAnything: takes a frame's arrivals up to its marker; what comes of it later is the start of the next frame, for which OneFrame.BodyArrives says what happens after any stream.
- LossyView.UserSeesParts: is about pictures that can be told apart, by their timestamps and by a first arrival that is not a lone marker after a lost one; for others LossyBroadcast.LossyBroadcastArrives gives the deliveries.
- Sender.SendFrame: sends every packet; the timestamp step between frames is not modelled, since EndToEnd.BroadcastArrives takes any timestamps.
- st2110rx_get_stats and the format and version queries add only easy members.

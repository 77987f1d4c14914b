# Verified models of the streaming middleware's codecs and protocol engines

A Dafny project about the parts of the middleware in which two halves have to agree byte for byte, or in which state
is edited in place. Each part has a specification on values, methods and classes that work the way the C and C++ code
does (buffers, offsets, cached counters, loops) and are proved against that specification, and theorems about the
specification.

| part | modules | what is proved of it |
|---|---|---|
| RTMP chunk stream (section 5.3.1 of Adobe's RTMP specification 1.0) | RtmpChunkFormat, RtmpOctets, RtmpSender, RtmpReader, RtmpReassembly, RtmpForeign | chunking in place is exact; reassembly over every interleaving; when times are restored |
| MPEG transport stream (sections 2.4.3.2 and 2.4.3.6 of ISO/IEC 13818-1) | Bitstream, BitWriter, Crc, TsFormat, TsMux, TsBits, TsMuxer, TsContinuity, TsDemux, TsDemuxer, TsRoundTrip, TsStream, TsBuffers, TsHeaders, TsService | the demultiplexer undoes the multiplexer, from packets and from memory; counters; clock; CRC |
| INI files | IniText, IniQuote, IniValue, IniEdit, IniFile, IniDrop, IniNames, IniRewriter | put then get; other keys untouched; which lines change; what a drop leaves; the cached rewriting is the plain edit |
| AMF0 (section 2 of the AMF0 specification) | Amf, AmfOctets, AmfExact, AmfFit, AmfEncoder, AmfDecoder | round trip of trees; truncation is safe and decodable |
| RTMP handshake | Handshake, HandshakeOctets, Handshaker | an honest session completes and its ciphers agree |
| RTMP call queue | Calls, CallFlow, CallQueue | conservation, order and numbering of calls over every run |
| RTMP media reading | FlvStream, FlvReader | independence of request sizes; the stream parses back |
| Block TEA | Tea | the decoder inverts the encoder; number of rounds |
| H.264 byte stream (Annex B) | AnnexB | which unit lists come apart as they were joined |
| Base64 (section 4 of RFC 4648) | Base64 | round trip |

Bytes, Arithmetic and Memory hold what the parts share.

## What does not hold

Where the code falls short of a property, the exact condition is proved, or "Left out" says how much of it.

- Times (`RtmpReassembly.TimesExact`): a difference of 0xffffff or more is sent as 0, and a new message behind a type 3
  header makes the reader add the last difference again (`RtmpReassembly.RepeatedTimeIsAddedAgain`).
- Compression (`RtmpReassembly.SendableIsExact`): a message sent with type 2 or 3 requested is received with the length
  and kind of the last one.
- Units (`TsRoundTrip.UnitExact`): one with a continuation packet that looks like a PES start, or as long as the frame
  buffer, does not come through.
- Alignment (`TsMuxer.Muxer.Mux`, `TsFormat.OverrunExactly`): when the last packet has fewer octets left than there are up
  to the source alignment, one or two octets are copied from behind the unit and written behind the packet. They are not
  counted in the size, so what is sent is right for every alignment.
- Alignment of copying (`TsHeaders.LayoutAligns`): octets are copied first when the two addresses modulo 4 add up to 4,
  not when they are equal, so what is left is aligned in both only if the unit was, or both were off by two.
- Counters (`TsContinuity.RunContinuousExactly`): two stream numbers of one kind share a PID but not a counter, so unless
  they take turns by multiples of 16 packets the counters are not consecutive.
- Clock and stamps: the lowest bit of the clock is not written (`TsMuxer.ClockBits`); the low seven bits of a stamp are
  not read back (`TsRoundTrip.StampRead`).
- INI values (`IniQuote.ReadBackExact`): those with blanks around them that are not quoted, and those too long for the
  line, do not read back. `check_enquote` quotes for a trailing blank but not for a leading one.
- INI drops (`IniDrop.DropThenLookup`, `IniDrop.DropThenSection`): a key with a second line, or a section with a second
  header, is still there after it is dropped.
- AMF0 (`AmfExact.ObjectRoundTripExactly`): objects with nulls or empty names are encoded, but do not come back when
  there is something behind them or their last property is no object. Otherwise some do (`AmfExact.UnnamedZeroComesBack`).
- INI sections (`IniEdit.UnnamedDropExact`): dropping the keys before the first section takes the first header with it
  when the file starts with one.
- Base64 text is cut at as many octets as the decoder is told the source has (`Base64.RoundTrip`).
- Annex B (`AnnexB.SplitsExactly`): a unit that ends in a zero before a three-octet start code loses it; before a
  four-octet one it does not.

## Model

| member | source | states |
|---|---|---|
| RtmpChunkFormat.ContinuationLength | onyx_libs/librtmp/rtmp.c:3279-3344 | The chunks after the first take the rest of the body and one type 3 basic header for each, for every body and chunk size |
| RtmpChunkFormat.BufferSlack | onyx_libs/librtmp/rtmp.c:3279-3291 | What a message of several chunks needs leaves exactly one continuation header of the joint buffer unused |
| RtmpSender.BufferRoom | onyx_libs/librtmp/rtmp.c:3286-3334 | More than one chunk is needed exactly when the body is longer than a chunk, and the joint buffer is then larger than what is written to it |
| RtmpSender.UnfoldChunks | onyx_libs/librtmp/rtmp.c:3293-3333 | What is still to be sent is the pending header, a slice of the body, and the same again behind a type 3 header |
| RtmpSender.Sender.Compress | onyx_libs/librtmp/rtmp.c:3189-3212 | The header type sent and the time it counts from, out of the type asked for and the last packet of the channel |
| RtmpSender.Sender.PlaceHeader | onyx_libs/librtmp/rtmp.c:3217-3277 | The octets laid in front of the body are the basic header, fields and extended time of the message |
| RtmpSender.Sender.SendOne | onyx_libs/librtmp/rtmp.c:3293-3333 | One round sends a chunk and overwrites octets of the body already sent with the next header; the body still to come is untouched |
| RtmpSender.Sender.ChunkLoop | onyx_libs/librtmp/rtmp.c:3293-3333 | Although headers are written into the body buffer, what goes out is the first header and the slices of the body as it was given, and the write offset stays inside the joint buffer |
| RtmpSender.Sender.SendPacket | onyx_libs/librtmp/rtmp.c:3179-3369 | A call appends exactly the chunks of the message to the wire and makes the message the channel's reference; when refused or disconnected it changes neither |
| RtmpReader.Reader.ReadHead | onyx_libs/librtmp/rtmp.c:2857-2956 | The header is read off the input as parsed, or the call fails when the input runs out |
| RtmpReader.Reader.ReadPacket | onyx_libs/librtmp/rtmp.c:2857-3021 | A call reads one chunk, updates the state of its channel alone, and hands out a message when it is whole; on failure no channel changes |
| RtmpReassembly.SendableIsExact | onyx_libs/librtmp/rtmp.c:2900-2928 | Whatever the caller's packet held, the reader makes out length and kind of a message from its compressed header, if and only if the header carries them or the channel's last message had them |
| RtmpReassembly.CallersPacketReplaced | onyx_libs/librtmp/rtmp.c:2900-2928 | For such a message the caller's packet makes no difference but in the stream number |
| RtmpReassembly.ContinuationRead | onyx_libs/librtmp/rtmp.c:2996-3021 | Continuation chunks complete the packet begun before, with the stated body and time |
| RtmpReassembly.MessageRead | onyx_libs/librtmp/rtmp.c:3179-3369 | One message sent is one message received, with the same channel, kind and body, and sender and reader references stay in step through compression |
| RtmpReassembly.ChannelRead | onyx_libs/librtmp/rtmp.c:2857-3021 | The same for a whole run of messages on a channel |
| RtmpReassembly.ChunkIsLocal | onyx_libs/librtmp/rtmp.c:2857-3021 | A chunk is read the same whatever follows it and whatever other channels hold |
| RtmpReassembly.InterleavingRead | onyx_libs/librtmp/rtmp.c:2857-3021 | For every interleaving of chunks across channels, the messages of a channel are those its own chunks give |
| RtmpReassembly.Reassembly | onyx_libs/librtmp/rtmp.c:2857-3021 | Chunk reassembly: for every schedule of chunks, each channel's messages come back with channel, kind and body; and all their times do if and only if every time field fits |
| RtmpReassembly.InOrder | onyx_libs/librtmp/rtmp.c:2857-3021 | Messages sent one after the other on any channels come back in that order |
| RtmpReassembly.TimeExact | onyx_libs/librtmp/rtmp.c:2925-2956 | The reader's time of a message equals the sender's if and only if the field carries the difference (or time) the reader adds |
| RtmpReassembly.TimesExact | onyx_libs/librtmp/rtmp.c:2996-3014 | The same for all messages of a run, from the reference times onward |
| RtmpReassembly.RepeatedTimeIsAddedAgain | onyx_libs/librtmp/rtmp.c:2996-3014 | Two messages at time 40 are received at 40 and 80: a new message with a type 3 header replays the last field |
| RtmpOctets.HeaderOctets | onyx_libs/librtmp/rtmp.c:3189-3277 | Octet by octet: the type is 1 exactly if it was asked for and size or kind differ, and 3 exactly if the time repeats as well; the channel is named in one to three octets; the time field is the difference, or three zero octets from 0xffffff on; size, kind and number follow in their byte orders |
| RtmpOctets.HeaderExample | onyx_libs/librtmp/rtmp.c:3189-3194 | An audio message of the same size and kind as the last, at a new time, has type 2 |
| RtmpOctets.ChunksHold | onyx_libs/librtmp/rtmp.c:3293-3333 | Chunk number i carries part number i of the body, of the chunk size but for the last, behind the header or one of type 3 |
| RtmpForeign.FieldsOpen | onyx_libs/librtmp/rtmp.c:2900-2943 | What the reader takes from the fields of each header type, octet by octet |
| RtmpForeign.ExtendedTimeRead | onyx_libs/librtmp/rtmp.c:2925-2956 | A time field of 0xffffff has the time in the four octets behind: the message's own for a full header, else added to the channel's modulo 2^32 |
| RtmpForeign.ForeignReassembly | onyx_libs/librtmp/rtmp.c:2857-3021 | From senders that write extended times, for every interleaving, all messages come back and every time, without condition |
| TsFormat.OverrunExactly | onyx_libs/tsmux/SimpleTsMux.cpp:1015-1110 | Nothing is copied past the end of a unit if and only if no packet is asked to lead with more octets than it holds |
| TsFormat.FitsWhenAligned | onyx_libs/tsmux/SimpleTsMux.cpp:1015-1024 | In a packet buffer aligned to 4 that is so if and only if the last packet holds no octets or at least those up to the source alignment |
| TsMux.ClockStaysClose | onyx_libs/tsmux/SimpleTsMux.cpp:885-964 | Whatever the time stamps, after a call the clock is within one reference period (9000) of the last reference sent |
| TsService.IndexWraps | onyx_libs/tsmux/SimpleTsMux.cpp:858-862 | The number of a stream is taken down by hundreds to at most 100 |
| TsService.CallReferences | onyx_libs/tsmux/SimpleTsMux.cpp:885-964 | By a reader of the standard's fields: a call sends one clock reference exactly when no clock was set, the clock goes back, is 9000 past the last reference or where it was started; it is the time less the delay, modulo 2^33, without its lowest bit |
| TsService.RunReferences | onyx_libs/tsmux/SimpleTsMux.cpp:885-964 | Over every run of calls of any streams, a stream's clock is at most 9000 past the last of its references read back from the packets |
| TsService.CallTables | onyx_libs/tsmux/SimpleTsMux.cpp:967-998 | The association table goes out on PID 0 and the program map on PID 0x100, each in one packet that a reader finds whole, exactly with video (or audio alone) the first time and when more than 18000 have passed |
| TsMux.Emit | onyx_libs/tsmux/SimpleTsMux.cpp:842-1121 | A call keeps counters and clocks in their ranges |
| TsMuxer.AddPesHeader | onyx_libs/tsmux/SimpleTsMux.cpp:685-839 | The octets of the PES header, through the bit writer, are those of the format: start code, length, flags, time stamps |
| TsHeaders.HeaderSays | onyx_libs/tsmux/SimpleTsMux.cpp:685-839 | By the standard's fields: start code, kind, length, stamp flags, stamps of 33 bits with tag and markers, filling |
| TsHeaders.PacketSays | onyx_libs/tsmux/SimpleTsMux.cpp:1002-1110 | By the standard's fields: start flag, priority, PID, counter, an adaptation field exactly if there is stuffing, its octets; then header and slice |
| TsHeaders.LayoutAligns | onyx_libs/tsmux/SimpleTsMux.cpp:1012-1026 | The last packet is filled up; in any other what is left behind the octets copied first is aligned in packet and unit exactly if the unit was, or both were off by two |
| TsMuxer.WritePsiPacket | onyx_libs/tsmux/SimpleTsMux.cpp:553-603 | A table packet: header, pointer, table, filling to 188 octets, and nothing beyond |
| TsMuxer.WritePcrPacket | onyx_libs/tsmux/SimpleTsMux.cpp:607-682 | A clock packet of 188 octets, the clock field without its lowest bit |
| TsMuxer.ClockBits | onyx_libs/tsmux/SimpleTsMux.cpp:656-664 | Written in two pieces across an octet boundary, the clock field comes out as the clock halved: the lowest bit is dropped |
| TsMuxer.WriteStuffing | onyx_libs/tsmux/SimpleTsMux.cpp:1051-1063 | The stuffing loop fills an adaptation field of just the length asked for |
| TsMuxer.WriteSlice | onyx_libs/tsmux/SimpleTsMux.cpp:1093-1110 | The octets up to the source alignment are copied first, even past the end of the unit, and the count of what is left comes out as if they had not been |
| TsMuxer.WriteUnitPacket | onyx_libs/tsmux/SimpleTsMux.cpp:1002-1119 | One packet of a unit is written whole, for every alignment; the size grows by header, control octet, padding and PES header alone; and what overruns is what lies behind the unit |
| TsMuxer.WritePayload | onyx_libs/tsmux/SimpleTsMux.cpp:1002-1119 | The packets of a unit are those of the format in order, the counter ends where the last packet leaves it, and the size, which counts the raw payload beforehand, ends at 188 times their number |
| TsMuxer.Muxer.constructor | onyx_libs/tsmux/SimpleTsMux.cpp:289-328 | Counters and clocks start at zero |
| TsMuxer.Muxer.SendService | onyx_libs/tsmux/SimpleTsMux.cpp:912-993 | Clock and table packets, when due, precede the payload and are added to the size |
| TsMuxer.Muxer.Mux | onyx_libs/tsmux/SimpleTsMux.cpp:842-1121 | For every alignment: the size, counted apart from the write pointer from the raw size on, is 188 times the number of packets, that many octets are exactly the packets of the model, and writing stops there if and only if nothing is copied past the end of the unit |
| TsContinuity.UnitContinuous | onyx_libs/tsmux/SimpleTsMux.cpp:1002-1119 | Counters of a unit's packets are consecutive modulo 16, and the start flag is on the first and only there |
| TsContinuity.CallPassed | onyx_libs/tsmux/SimpleTsMux.cpp:842-1121 | In a call each PID continues the stream's counter for it, which ends past the packets sent |
| TsContinuity.RunContinuousExactly | onyx_libs/tsmux/SimpleTsMux.cpp:842-1121 | Over every run of calls from any streams, the packets of a PID carry consecutive counters if and only if, whenever a stream sends on it, the packets the others have sent number a multiple of 16 |
| TsContinuity.FirstRunContinuousExactly | onyx_libs/tsmux/SimpleTsMux.cpp:289-328 | The same from the start, with nothing sent |
| TsContinuity.RunContinuous | onyx_libs/tsmux/SimpleTsMux.cpp:842-1121 | In particular while all calls are for one stream |
| TsContinuity.TwoStreamsRepeatCounters | onyx_libs/tsmux/SimpleTsMux.cpp:1041-1118 | For instance, two streams that start with a unit of the same kind repeat a counter value on its PID |
| TsDemux.ProcessIsLocal | onyx_libs/tsdemux/TsDemux.cpp:141-191 | A packet is taken the same with or without the look at the octets behind it, when those are quiet |
| TsRoundTrip.StampRead | onyx_libs/tsdemux/TsDemux.cpp:48-56 | A time stamp comes back with its low seven bits as stated, and exactly if and only if they are all ones |
| TsHeaders.AnyStampRead | onyx_libs/tsdemux/TsDemux.cpp:48-56 | Of the stamps of any header all but the low seven bits are right; decoding and audio times have the 33rd bit in the place of the lowest |
| TsHeaders.ReadPtsIs | onyx_libs/tsdemux/TsDemux.cpp:141-254 | The presentation time delivered with a unit: its 33 bits for video and 32 for audio, the low seven as stated |
| TsHeaders.ReadDtsIs | onyx_libs/tsdemux/TsDemux.cpp:141-191 | The decoding time kept of a unit: its 32 bits, the low seven as stated |
| TsHeaders.StartTaken | onyx_libs/tsdemux/TsDemux.cpp:141-191 | What a packet that starts a unit leaves in an empty parser, whoever made it: the stamps its flags announce, and the octets behind its header |
| TsRoundTrip.UnitFed | onyx_libs/tsdemux/TsDemux.cpp:141-191 | Feeding all packets of a unit delivers the unit held before and leaves this one held |
| TsRoundTrip.UnitExact | onyx_libs/tsdemux/TsDemux.cpp:141-191 | This happens if and only if the unit stays below the frame buffer, and no continuation slice looks like a start, among units whose false headers point inside the packet |
| TsRoundTrip.FalseStartCutsShort | onyx_libs/tsdemux/TsDemux.cpp:141-191 | A continuation slice that looks like a start, its header inside the packet, delivers the frame short |
| TsRoundTrip.DirtyBreaks | onyx_libs/tsdemux/TsDemux.cpp:141-191 | A unit with such a slice is broken up before it is over |
| TsRoundTrip.FrameBelowMax | onyx_libs/tsdemux/TsDemux.cpp:141-191 | A parser never holds as many octets as its buffer has |
| TsStream.FeedSplits | onyx_libs/tsdemux/TsDemux.cpp:359-389 | A stream of packets is to each parser what the packets of its own PID are |
| TsStream.DemuxUndoesMux | onyx_libs/tsdemux/TsDemux.cpp:359-389 | Demux undoes mux: for every run of calls, each kind's units come out in order and unchanged, each when the next starts, the last one held |
| TsBuffers.DrainIsFeed | onyx_libs/tsdemux/TsDemux.cpp:359-389 | Parsing a buffer of packets, a completed frame leaving its packet unread, amounts to feeding the packets one by one |
| TsBuffers.RefillsDoNotMatter | onyx_libs/tsdemux/tsfilter.cpp:328-409 | Between which packets refills cut the stream makes no difference |
| TsBuffers.BuffersGiveUnits | onyx_libs/tsdemux/tsfilter.cpp:328-409 | The multiplexer's output read through any sequence of refills of whole packets gives back the units |
| TsDemuxer.PktParser.Append | onyx_libs/tsdemux/TsDemux.cpp:181-189 | Octets are appended only if the buffer stays strictly larger than its contents |
| TsDemuxer.PktParser.Process | onyx_libs/tsdemux/TsDemux.cpp:141-254 | The parser class takes a packet as the model does: state, length, stamps and contents |
| TsDemuxer.Demux.EnableElemStream | onyx_libs/tsdemux/TsDemux.cpp:314-331 | A parser for the PID and its kind is registered, the others stay |
| TsDemuxer.Demux.Parse | onyx_libs/tsdemux/TsDemux.cpp:359-389 | Reads up to the first packet that completes a frame, or to the end |
| TsDemuxer.Demux.Drain | onyx_libs/tsdemux/tsfilter.cpp:328-409 | The caller's loop delivers the frames of the model and leaves its parsers |
| Bitstream.PutShiftsAndAdds | onyx_libs/tsmux/SimpleTsMux.cpp:248-270 | Putting a field multiplies the number written so far by a power of two and adds the field |
| Bitstream.PutIsExact | onyx_libs/tsmux/SimpleTsMux.cpp:248-270 | Nothing of a field is lost if and only if its bits past the 32nd of the word are zero |
| Bitstream.WordIsPut | onyx_libs/tsmux/SimpleTsMux.cpp:248-270 | The word the writer stores holds the bits so far and the field, cut at the 32nd |
| BitWriter.OrDisjoint | onyx_libs/tsmux/SimpleTsMux.cpp:256-258 | Or-ing the field into the pending octet adds it, the bits being disjoint |
| BitWriter.Writer.PutBits | onyx_libs/tsmux/SimpleTsMux.cpp:248-270 | The writer appends the low bits of a code, but for those past the 32nd |
| BitWriter.Writer.Stop | onyx_libs/tsmux/SimpleTsMux.cpp:218-232 | The number of octets written, a started one included |
| Crc.TableIsSerial | onyx_libs/tsmux/SimpleTsMux.cpp:100-166 | Each of the 256 table entries is eight steps of the bit-serial division by 0x04C11DB7 |
| Crc.TableStepIsSerial | onyx_libs/tsmux/SimpleTsMux.cpp:191-199 | A table step is eight bit-serial steps with a message octet |
| Crc.Generate | onyx_libs/tsmux/SimpleTsMux.cpp:206-216 | The loop computes the bit-serial remainder of every message |
| Crc.Validate | onyx_libs/tsmux/SimpleTsMux.cpp:180-204 | Validation accepts exactly the messages that end in the CRC of what precedes |
| Crc.TailCancels | onyx_libs/tsmux/SimpleTsMux.cpp:180-204 | Four octets bring the register to zero if and only if they are the register |
| Crc.PassesExactly | onyx_libs/tsmux/SimpleTsMux.cpp:180-204 | A message and a tail pass if and only if the tail is the message's CRC |
| Crc.CheckValue | onyx_libs/tsmux/SimpleTsMux.cpp:180-216 | The register after "123456789" is 0x0376e6e7, and is written most significant octet first |
| IniText.PiecesOfLines | onyx_mw/minini.c:217-240 | Lines short enough for the buffer are read back one by one |
| IniNames.LongLineCut | onyx_mw/minini.c:217-240 | Longer ones are read in pieces of 511 characters |
| IniNames.SameNameExactly | onyx_mw/minini.c:94-111 | Names are the same if and only if they are equal but for small letters and their capitals |
| IniNames.LineSets | onyx_mw/minini.c:255-278 | A line with blanks, a name, blanks and an equals sign, or a colon without one, is the name's in any case, a comment if it begins like one, and says what is behind the sign |
| IniNames.LineHeads | onyx_mw/minini.c:230-238 | A name in brackets behind blanks is a header, of that name in any case |
| IniNames.ValueEnds | onyx_mw/minini.c:184-215 | A value without quotes ends before the blanks before a comment or the line's end |
| IniQuote.EscapedIsUnescaped | onyx_mw/minini.c:139-182 | Taking the escapes out of escaped text gives the text, as far as there is room |
| IniQuote.QuotedIsCleaned | onyx_mw/minini.c:184-215 | Of a quoted value with escapes the quotes come off and no comment is found in it |
| IniQuote.PlainIsTrimmed | onyx_mw/minini.c:184-215 | Of a plain value only the blanks around it are lost |
| IniQuote.ReadBackExact | onyx_mw/minini.c:139-215 | A saved value reads back unchanged if and only if it fits its line, and is quoted or has no blanks around it |
| IniQuote.CrampedReadBack | onyx_mw/minini.c:139-182 | With no room for two quotes a value to be quoted never reads back |
| IniEdit.PutThenLookup | onyx_mw/minini.c:659-763 | After a put, the key's line is the one written |
| IniEdit.PutThenGetLine | onyx_mw/minini.c:217-284 | And its value is the one put, under exactly the condition of reading back |
| IniEdit.OthersUnchanged | onyx_mw/minini.c:659-763 | Setting or dropping a key leaves every other section and key alone |
| IniNames.GetsIgnoresCase | onyx_mw/minini.c:217-284 | A file is read the same under any case of section and key |
| IniNames.EditIgnoresCase | onyx_mw/minini.c:659-763 | An edit under any case of section and key changes the same lines, but for the spelling of those it writes |
| IniNames.DropIgnoresCase | onyx_mw/minini.c:659-763 | A drop leaves the same file under any case |
| IniNames.PutLeavesOneLine | onyx_mw/minini.c:659-763 | A put under any case leaves as many lines of the key before the next header as there were, and one if there was none |
| IniNames.PutOfSameValue | onyx_mw/minini.c:631-642 | A put of the value that is there leaves the file as it is |
| IniNames.LinesWritten | onyx_mw/minini.c:516-560 | The text of the lines written, and which values are quoted |
| IniNames.EscapePuts | onyx_mw/minini.c:150-165 | A backslash goes before every quote and nothing else changes |
| IniEdit.OtherSectionsStay | onyx_mw/minini.c:659-763 | Dropping a section leaves every other section's keys alone |
| IniEdit.TopStays | onyx_mw/minini.c:659-763 | And the keys before the first section |
| IniEdit.UnnamedDropExact | onyx_mw/minini.c:659-763 | Dropping the keys before the first section gives the plain edit if and only if the file does not start with a header |
| IniEdit.UnnamedDropLosesSection | onyx_mw/minini.c:659-763 | On a file that does, the first section's keys are no longer found |
| IniFile.KeyEditIsLocal | onyx_mw/minini.c:659-763 | A put or drop, exactly: of a section that is there, only the first line of the key before the next header is replaced, or the key's line is inserted before that header or at the end; a missing section is added at the end, behind a line end if one is missing |
| IniFile.SectionDropIsExact | onyx_mw/minini.c:659-763 | A dropped section, exactly: the first header of the name goes with the lines up to the next header, and all else stays |
| IniDrop.DropThenLookup | onyx_mw/minini.c:715-753 | After a key is dropped it is not found if and only if it had at most one line before the next header |
| IniDrop.DropThenSection | onyx_mw/minini.c:676-731 | After a section is dropped its keys are looked up in the next section of the name; none is there if and only if the name had at most one header |
| IniDrop.DropThenGet | onyx_mw/minini.c:608-764 | The same for the drop of a key and the reader, on files |
| IniDrop.DropSectionThenGet | onyx_mw/minini.c:608-764 | And for the drop of a section |
| IniFile.EditedProper | onyx_mw/minini.c:608-764 | A file of terminated lines under the buffer size is one again after a put |
| IniFile.PutThenGet | onyx_mw/minini.c:608-764 | Put, then get: the value comes back if and only if it was there before, or it fits and is quoted or has no blanks around it |
| IniFile.PutKeepsOthers | onyx_mw/minini.c:608-764 | Every other lookup gives what it did before |
| IniFile.FreshThenGet | onyx_mw/minini.c:618-628 | In a file created by the put, the value comes back under the same condition |
| IniValue.Store | onyx_mw/minini.c:139-182 | The bounded copy, with or without taking escapes out |
| IniValue.CleanInPlace | onyx_mw/minini.c:184-215 | Comment, blanks and quotes are cut off in the buffer as specified |
| IniValue.TakeValue | onyx_mw/minini.c:277-283 | The value of the line in the buffer reaches the caller's buffer, as far as it holds it |
| IniRewriter.PieceRereads | onyx_mw/minini.c:573-581 | A piece read again with less, but enough, room is the same piece |
| IniRewriter.Rewriter.Accum | onyx_mw/minini.c:559-566 | A line is counted in exactly when the cache stays below the buffer size |
| IniRewriter.Rewriter.Reread | onyx_mw/minini.c:573-581 | Re-reading from the mark restores the cached lines |
| IniRewriter.Rewriter.Flush | onyx_mw/minini.c:568-588 | Flushing writes the cached text, moves the mark behind it, and says whether it ended a line |
| IniRewriter.Rewriter.Copy | onyx_mw/minini.c:680-684 | Copying a line through the cache appends it to what is or will be written |
| IniRewriter.Rewriter.CopyToSection | onyx_mw/minini.c:659-687 | The search for the section copies everything up to it |
| IniRewriter.Rewriter.CopyToKey | onyx_mw/minini.c:688-732 | The search for the key copies, or with the section drops, the lines up to it |
| IniRewriter.Rewriter.SaveValue | onyx_mw/minini.c:139-182 | The value is written as saved, quoted or plain |
| IniRewriter.Rewriter.Finish | onyx_mw/minini.c:738-763 | The line the search stopped at is kept or replaced, and the rest of the file copied |
| IniRewriter.Rewriter.Edit | onyx_mw/minini.c:659-763 | Cached copy refines plain copy: what is written is the line-by-line edit of the file |
| IniRewriter.Rewriter.Puts | onyx_mw/minini.c:608-764 | The same for the whole call, with its early exits |
| IniRewriter.Rewriter.GetKeyString | onyx_mw/minini.c:217-284 | The reader finds the key and stores its value as specified |
| IniRewriter.Rewriter.Gets | onyx_mw/minini.c:296-311 | A reader gets the value of the key, or the default when it is not there |
| Amf.ValueRoundTrip | onyx_libs/librtmp/amf.c:602-786 | Decoding an encoded value gives it back and uses its encoding exactly, whatever follows |
| Amf.PropRoundTrip | onyx_libs/librtmp/amf.c:602-786 | The same for a named property of any depth |
| Amf.ObjectRoundTrip | onyx_libs/librtmp/amf.c:1067-1111 | The same for an object: the tree, and the encoded length |
| AmfExact.EncodedTooShort | onyx_libs/librtmp/amf.c:363-410 | A null or an empty name anywhere makes the encoding shorter than the value weighs, which is the fewest octets a decoder with octets left over takes for it |
| AmfExact.ObjectRoundTripExactly | onyx_libs/librtmp/amf.c:363-410 | With something behind it, or with a last property that is no object, an object that has an encoding comes back from it, with its length, if and only if at every depth names are neither empty nor longer than 65535 octets and values are not null |
| AmfExact.MarkTaken | onyx_libs/librtmp/amf.c:1067-1111 | Properties that come back from a faulty encoding with at most three octets too many have taken the end mark of the object around theirs |
| AmfExact.UnnamedZeroComesBack | onyx_libs/librtmp/amf.c:1067-1111 | With an unnamed zero at the end of an object nested at its end, less than 768 deep, an object comes back although it is faulty, if and only if nothing is behind it |
| AmfExact.UnnamedZeroExample | onyx_libs/librtmp/amf.c:1067-1111 | The least of these, its encoding octet by octet: something behind it is needed |
| AmfOctets.ValueOctets | onyx_libs/librtmp/amf.c:178-240 | The octets of every value by number: 0, 1 with 0 or 1, 2 or 12 with the length most significant first, 3 and the end in 0 0 9 |
| AmfOctets.PropOctets | onyx_libs/librtmp/amf.c:363-410 | Those of a property: length and name before the value, and 5 alone for a null |
| AmfOctets.PropsOctets | onyx_libs/librtmp/amf.c:867-898 | The properties of an object stand one behind the other, in order |
| AmfOctets.NumberRead | onyx_libs/librtmp/amf.c:602-786 | Type 0 is read as the eight octets of a number, whatever follows |
| AmfOctets.StringRead | onyx_libs/librtmp/amf.c:602-786 | Type 2 is read as a string, whatever follows |
| AmfOctets.LongStringRead | onyx_libs/librtmp/amf.c:602-786 | Type 12 is read as a long string, whatever follows |
| AmfOctets.DateRead | onyx_libs/librtmp/amf.c:602-786 | Type 11 is read as a date, whatever follows |
| AmfOctets.OthersRead | onyx_libs/librtmp/amf.c:602-786 | Type 1 with any nonzero octet is true; types 5, 6 and 13 are null; the types not modelled are refused |
| AmfOctets.ShortRead | onyx_libs/librtmp/amf.c:602-786 | Every value that is cut off is refused |
| AmfOctets.ObjectRead | onyx_libs/librtmp/amf.c:1067-1111 | An object is read property by property, each with its name, up to 0 0 9 |
| AmfOctets.ObjectIs | onyx_libs/librtmp/amf.c:602-786 | Type 3 is read as an object, and 0 0 9 ends one |
| AmfFit.FitValueIsCut | onyx_libs/librtmp/amf.c:363-410 | What is encoded into a given room is the value with its property lists cut to prefixes |
| AmfFit.FitsExactly | onyx_libs/librtmp/amf.c:867-898 | An object is encoded whole if and only if there is an octet to spare behind it |
| AmfFit.SafeTruncation | onyx_libs/librtmp/amf.c:867-898 | Whatever the room: the encoding of the cut object lies below the end and decodes to the object with each property list cut to a prefix |
| AmfEncoder.EncodeString | onyx_libs/librtmp/amf.c:178-200 | A string is written with its length when there is room for it, and nothing past the end |
| AmfEncoder.EncodeValue | onyx_libs/librtmp/amf.c:363-410 | A value is encoded as far as it fits, or refused, and nothing past the end is written |
| AmfEncoder.EncodeProp | onyx_libs/librtmp/amf.c:363-410 | The same for a property |
| AmfEncoder.EncodeObject | onyx_libs/librtmp/amf.c:867-898 | The same for an object, whose loop stops at the first property that does not fit |
| AmfDecoder.PropList.Add | onyx_libs/librtmp/amf.c:1113-1120 | A property is appended, the array growing by 16 when it is full |
| AmfDecoder.ParseProp | onyx_libs/librtmp/amf.c:602-786 | The recursive decoder computes the specified result on every input, the kinds left out below being errors |
| AmfDecoder.ParseProps | onyx_libs/librtmp/amf.c:1067-1111 | The property loop does, with the skipping to the end mark after an error |
| Tea.StepUndone | onyx_libs/librtmp/rtmp.c:3592-3606 | With two words or more, a decoding step takes an encoding step back |
| Tea.DecodeUndoesEncode | onyx_libs/librtmp/rtmp.c:3592-3606 | Decoding inverts the reference block TEA encoder for every key and every text of at least two words |
| Tea.OneWordNotUndone | onyx_libs/librtmp/rtmp.c:3592-3606 | With one word a decoding step does not take the encoding step back |
| Tea.KeyIndexBits | onyx_libs/librtmp/rtmp.c:3583-3606 | The key word of a step is chosen by the sum, without carry, of the bits of position and round |
| Tea.RoundExample | onyx_libs/librtmp/rtmp.c:3583-3606 | One round on four words by number, through all four words of a key |
| Tea.SumNotZero | onyx_libs/librtmp/rtmp.c:3592-3593 | The sum of rounds is not zero modulo 2^32 after any number of rounds below 2^32 but none |
| Tea.DecodeTea | onyx_libs/librtmp/rtmp.c:3583-3606 | The in-place loop computes the decoding and ends after exactly 6 + 52/n rounds |
| Tea.DecodeRound | onyx_libs/librtmp/rtmp.c:3594-3604 | One round, from the last word down to the first |
| Handshake.PlacesAreApart | onyx_libs/librtmp/handshake.h:143-258 | In both layouts the digest, the public key, the octets that place them and the first eight octets are disjoint, and no exit guard of the offset functions fires |
| HandshakeOctets.PlacesByNumber | onyx_libs/librtmp/handshake.h:143-258 | The four places by number: which octets are summed, the modulus and the base |
| HandshakeOctets.TextsAre | onyx_libs/librtmp/handshake.h:85-108 | The two texts messages are signed with |
| Handshake.KeyFound | onyx_libs/librtmp/handshake.h:443-467 | After the public key is written, both offsets are as before and the key is found at its own |
| Handshake.DigestFound | onyx_libs/librtmp/handshake.h:469-474 | After the digest is written, it verifies at the offset computed afresh |
| Handshake.OpeningRead | onyx_libs/librtmp/handshake.h:395-486 | A first message carries its time and version, a digest that verifies, and the sender's public key |
| Handshake.ReplyAccepted | onyx_libs/librtmp/handshake.h:517-643 | An honest reply is never refused and passes the other side's check |
| Handshake.KeysCross | onyx_libs/librtmp/handshake.h:110-139 | Either side's outgoing cipher is the other's incoming one |
| Handshake.HandshakeCompletes | onyx_libs/librtmp/handshake.h:361-1099 | For all times, fills and keys, clients of type 3, 6 and 8: both sides accept, and an encrypted session ends with crossed ciphers |
| HandshakeOctets.OpensWith | onyx_libs/librtmp/handshake.h:395-440 | The type, version and layout a client opens with |
| HandshakeOctets.SessionSays | onyx_libs/librtmp/handshake.h:378-1040 | In an honest session, which text signs which first message and which key which second one, and which public key keys which direction of the ciphers |
| HandshakeOctets.SealedBlocks | onyx_libs/librtmp/handshake.h:605-614 | For type 8 each block of a signature is enciphered under the key that the digest names |
| Handshaker.GetDigestOffset | onyx_libs/librtmp/handshake.h:174-199 | The digest offset, and the guard that exits is never reached |
| Handshaker.GetDhOffset | onyx_libs/librtmp/handshake.h:143-172 | The same for the offset of the public key |
| Handshaker.CalculateDigest | onyx_libs/librtmp/handshake.h:273-287 | The digest is computed over the message around it, copied out before anything is written |
| Handshaker.VerifyDigest | onyx_libs/librtmp/handshake.h:289-300 | True exactly when the octets at the position are that digest |
| Handshaker.InitRC4Encryption | onyx_libs/librtmp/handshake.h:110-139 | Which shared-secret digest keys which direction |
| Handshaker.Seal | onyx_libs/librtmp/handshake.h:605-614 | The four blocks of a type 8 signature are enciphered in place |
| Handshaker.Sign | onyx_libs/librtmp/handshake.h:591-597 | The signature is written over the last 32 octets |
| Handshaker.Endpoint.Open | onyx_libs/librtmp/handshake.h:395-479 | The first message of either side, filled step by step in its buffer |
| Handshaker.Endpoint.FindDigest | onyx_libs/librtmp/handshake.h:522-538 | The digest is looked for in the expected layout and then in the other |
| Handshaker.Endpoint.ExchangeKeys | onyx_libs/librtmp/handshake.h:555-580 | Both keys, from the peer's public key in the layout found |
| Handshaker.Endpoint.ClientReact | onyx_libs/librtmp/handshake.h:494-643 | The client's reply and pending ciphers, or a refusal, for every first message of a server |
| Handshaker.Endpoint.ServerReact | onyx_libs/librtmp/handshake.h:888-1007 | The server's reply, written over the client's own message |
| Handshaker.Endpoint.Finish | onyx_libs/librtmp/handshake.h:645-745 | Accepted exactly when the signature is right, or nothing is signed; only then are the ciphers in force |
| Handshaker.Session | onyx_libs/librtmp/handshake.h:361-1099 | Both parties over a channel that delivers what is sent: both return TRUE, and their ciphers cross or are both absent |
| Calls.NamesWithout | onyx_libs/librtmp/rtmp.c:2258-2271 | Erasing an entry takes one call of its name out of the queue |
| Calls.HandleMoves | onyx_libs/librtmp/rtmp.c:2332-2502 | What a server message may do to the history of each name |
| Calls.RunBalanced | onyx_libs/librtmp/rtmp.c:2332-2502 | Over every run: calls queued of each name are those outstanding, answered, struck off by status, or dropped at the close |
| Calls.RunInOrder | onyx_libs/librtmp/rtmp.c:2374-2409 | Over every run: publish and play calls never outnumber answers to createStream, nor createStream calls the answers to connect |
| Calls.RunNumbered | onyx_libs/librtmp/rtmp.c:2360-2366 | Over every run, a nonzero number belongs to at most one outstanding call, so a result finds the call it is for |
| CallFlow.ConnectAnswered | onyx_libs/librtmp/rtmp.c:2356-2390 | What the answer to connect sends, in order and by name and number, and which of it is awaited |
| CallFlow.CreateStreamAnswered | onyx_libs/librtmp/rtmp.c:2391-2406 | What the answer to createStream sends |
| CallFlow.OthersAnswered | onyx_libs/librtmp/rtmp.c:2407-2412 | The answers to play and publish start the stream; other answers only end their wait |
| CallFlow.EndsExactly | onyx_libs/librtmp/rtmp.c:2413-2487 | Other than by a result, the server ends a working connection exactly with two methods and seven status codes |
| CallFlow.StrikesFirst | onyx_libs/librtmp/rtmp.c:2425-2496 | Which messages take the first call of which name from the queue |
| CallFlow.SendsInReturn | onyx_libs/librtmp/rtmp.c:2413-2425 | What is sent in return to bandwidth checks and pings |
| CallFlow.PauseTakenBack | onyx_libs/librtmp/rtmp.c:2482-2487 | A pause the server confirms is taken back once |
| CallQueue.MoveUp | onyx_libs/librtmp/rtmp.c:2263-2267 | The closing-up loop |
| CallQueue.Connection.Erase | onyx_libs/librtmp/rtmp.c:2258-2271 | The entry is gone, the others keep their order, within the capacity |
| CallQueue.Connection.Queue | onyx_libs/librtmp/rtmp.c:2279-2291 | The entry is appended; growing only on multiples of 16 keeps the capacity sufficient under any mix of queueing and erasing |
| Memory.Grown | onyx_libs/librtmp/rtmp.c:2283-2284 | The array with room for one entry more, a new one only on multiples of 16 |
| CallQueue.Connection.SendPacket | onyx_libs/librtmp/rtmp.c:3340-3360 | A call is queued when it is to be and was sent |
| CallQueue.Connection.HandleResult | onyx_libs/librtmp/rtmp.c:2356-2412 | A result resolves the first call of its number, and sends what follows that call |
| CallQueue.Connection.HandleStatus | onyx_libs/librtmp/rtmp.c:2437-2487 | A status strikes a play or publish call off, or closes |
| CallQueue.Connection.HandleInvoke | onyx_libs/librtmp/rtmp.c:2332-2502 | A server message changes the connection as specified |
| CallQueue.Serve | onyx_libs/librtmp/rtmp.c:2332-2502 | A whole connection keeps the balance and the order |
| FlvStream.ReadTakes | onyx_libs/librtmp/rtmp.c:4232-4277 | A read hands out the next octets of the tag stream and no others, at most as many as asked for, and some as long as there are any |
| FlvStream.FetchedWhenEmpty | onyx_libs/librtmp/rtmp.c:4241-4271 | Another message is taken from the session only when the leftover is wholly handed out and room remains |
| FlvStream.RunTakes | onyx_libs/librtmp/rtmp.c:4232-4277 | For any sequence of request sizes, the octets handed out are the beginning of the tag stream: nothing lost or repeated |
| FlvStream.SizesDoNotMatter | onyx_libs/librtmp/rtmp.c:4232-4277 | Of two readers of the same session with different sizes, one has read a prefix of what the other has |
| FlvStream.AllDelivered | onyx_libs/librtmp/rtmp.c:4232-4277 | Enough requests of at least one octet hand out the whole stream |
| FlvStream.TagRead | onyx_libs/librtmp/rtmp.c:4009-4050 | From a tag, its kind, length, time, body and trailing length can be read |
| FlvStream.TagSays | onyx_libs/librtmp/rtmp.c:4009-4050 | The octets of a tag, time split with its highest octet last |
| FlvStream.MessageInStream | onyx_libs/librtmp/rtmp.c:3720-3736 | A message has its tag in the stream, in its place, exactly if it has six octets, or two of audio, or is metadata |
| FlvStream.StreamSplits | onyx_libs/librtmp/rtmp.c:3980-4146 | The stream parses back into the messages kept, in order, each trailing length agreeing |
| FlvReader.WriteTag | onyx_libs/librtmp/rtmp.c:4009-4135 | The octets of a tag, header, body and trailing length, within the room counted |
| FlvReader.MediaReader.ReadOnePacket | onyx_libs/librtmp/rtmp.c:3690-4159 | One message from the session: given, spilled over into the slop buffer, passed over, or the end |
| FlvReader.MediaReader.Spill | onyx_libs/librtmp/rtmp.c:3987-4000 | A tag that needs the slop buffer: the part that fits is given, the rest is left over |
| FlvReader.MediaReader.UseLeftover | onyx_libs/librtmp/rtmp.c:4241-4262 | What is left over is handed out first, and its buffer freed when used up |
| FlvReader.MediaReader.Read | onyx_libs/librtmp/rtmp.c:4232-4277 | One call, with its buffers, is one read of the model |
| AnnexB.StopsAtEnd | onyx_mw/RtmpPublishBridge.cpp:105-113 | The search from the start of a unit stops at its end if and only if the unit is whole |
| AnnexB.SplitsExactly | onyx_mw/RtmpPublishBridge.cpp:184-194 | Joined with any mix of 3- and 4-octet start codes, the units visited are those joined if and only if every one is whole |
| AnnexB.ConformingUnitsSplit | onyx_mw/RtmpPublishBridge.cpp:184-194 | In particular for units without 0 0 0 or 0 0 1 that do not end in zero |
| AnnexB.TwoUnits | onyx_mw/RtmpPublishBridge.cpp:184-194 | By octets: two units behind a four-octet and a three-octet start code |
| AnnexB.FindStartCode | onyx_mw/RtmpPublishBridge.cpp:105-113 | The pointer loop finds the first start code, or the end |
| AnnexB.SkipStartCode | onyx_mw/RtmpPublishBridge.cpp:187-190 | The loop over zeros stops right behind the start code |
| AnnexB.VisitUnits | onyx_mw/RtmpPublishBridge.cpp:184-269 | The loop terminates and visits the units in order |
| Base64.OnlyLettersMatter | onyx_libs/jdnet/include/JdRtspClnt.h:129-152 | Octets outside the alphabet make no difference to the decoder |
| Base64.GroupDecoded | onyx_libs/jdnet/include/JdRtspClnt.h:134-150 | Four letters give back three octets, and the level is 0 again |
| Base64.RoundTrip | onyx_libs/jdnet/include/JdRtspClnt.h:103-154 | For every length, padding included, decoding the encoding gives the octets back, as far as there is room |
| Base64.RoundTripThroughStrangers | onyx_libs/jdnet/include/JdRtspClnt.h:103-154 | Also with foreign octets strewn into the text |
| Base64.LettersOfTable | onyx_libs/jdnet/include/JdMediaResMgr.h:106-135 | The letters by their codes, and the padding |
| Base64.TableExactly | onyx_libs/jdnet/include/JdRtspClnt.h:103-154 | The decoding table knows every letter and no other octet |
| Base64.EncodedSays | onyx_libs/jdnet/include/JdMediaResMgr.h:106-135 | Every four letters say the same 24 bits as their three octets; padding stands at the end alone, one for each octet missing |
| Base64.TestVectors | onyx_libs/jdnet/include/JdMediaResMgr.h:106-135 | Two of the test vectors of section 10 of RFC 4648 |
| Base64.ConvertToBase64 | onyx_libs/jdnet/include/JdMediaResMgr.h:106-135 | The encoding loop writes the letters, the padding and the zero octet, and counts them |
| Base64.TakeDigit | onyx_libs/jdnet/include/JdRtspClnt.h:134-151 | One digit at the level reached |
| Base64.Base64DecodeBinaryToBuffer | onyx_libs/jdnet/include/JdRtspClnt.h:103-154 | The decoding loop computes the decoding |

## Left out

- RtmpReassembly.Reassembly: both ends use one chunk size throughout; Set Chunk Size messages are not part of the model.
- RtmpSender.Sender.SendPacket: a socket that fails in the middle of a message is not modelled, only one that is up or down; nor are memory allocation failures and HTTP tunnelling.
- RtmpReader.Reader.ReadPacket: the caller's packet is taken as blank; `RtmpReassembly.CallersPacketReplaced` says what else it may hold without effect.
- RtmpReassembly.RecoveredOne: leaves out the stream number of a message, which types 1 to 3 do not carry; `RtmpForeign.FieldsOpen` says how it is read from a full header.
- TsMuxer.Muxer.Mux: three octets are assumed to lie in memory behind a unit, of which at most two are copied.
- TsStream.DemuxUndoesMux: stream numbers with their own index only, since 100 and 200 lie outside the counter arrays; audio units of at most 65525 octets, whose length field is 16 bits.
- TsMuxer.WritePsiPacket: the table is given as octets; `GeneratePAT` and `GeneratePMT` are not part of the model.
- TsMuxer.AddPesHeader: the flag octets are constants of the kind; decoding stamps with their 33rd bit for audio is left out.
- TsRoundTrip.UnitExact: a false start whose header fields point outside its packet, from where the code would copy, is not part of the model.
- TsRoundTrip.DirtyBreaks: the same, as for TsRoundTrip.FalseStartCutsShort.
- TsBuffers.RefillsDoNotMatter: a read that ends inside a packet is left out; the code keeps no tail of it and takes the next read as the start of a packet.
- TsBuffers.DrainIsFeed: a few octets of slack are assumed behind the buffer's contents, where the parser looks ahead.
- The PCR parser, the tables of `TsPsi.cpp`, and what the filter does with delivered frames.
- IniFile.PutThenGet: lines are terminated and shorter than the 512-character buffer; `char` is taken as unsigned in blank tests; NUL characters in the file are not modelled.
- IniNames.SameNameExactly: letters are those of ASCII, as in the "C" locale.
- IniRewriter.Rewriter.Puts: the character before the buffer that an empty cache looks at is a parameter, `stale`; temporary names, renaming and opening of files are left out.
- `ini_getl`, `ini_getf`, `ini_getbool`, `ini_browse`, `ini_getkey` and `ini_getsection`, which add number parsing and listing.
- AmfExact.ObjectRoundTripExactly: for an object whose last property is an object, with nothing behind it, only the "if" half is proved; `AmfExact.UnnamedZeroComesBack` shows where the other fails.
- AmfDecoder.ParseProp: AMF3, ECMA and strict arrays and the AVM+ switch are answered with an error; numbers are eight octets, not reals.
- AmfEncoder.EncodeString: `long` is taken as wider than 32 bits in the length comparison.
- Tea.DecodeUndoesEncode: hexadecimal conversion of the token and padding of the key are left out; one word alone is its own neighbour, and its steps do not undo one another (`Tea.OneWordNotUndone`).
- Handshake.HandshakeCompletes: SHA-256 HMAC, Diffie-Hellman, RC4 and the type 8 block cipher are functions, of which only the commutativity of the shared secret is assumed; SWF verification tokens and failures of the cryptographic library are left out.
- Calls.RunInOrder: the user does not call createStream, publish or play itself, so reconnecting a stream is left out; a connect packet supplied by the caller is, too.
- CallQueue.Connection.CloseDown: the messages sent in farewell are not modelled; none of them is queued.
- FlvStream.RunTakes: audio, video and metadata messages; FLV data inside a message, resuming, seeking, the FLV file header and its first packets are left out, as is the type mask of the header.
- AnnexB.VisitUnits: what `SendVideo` does with a unit (parameter sets, tags, sending) is left out.
- Sockets, TLS, SOCKS, HTTP, threads, S3 upload, OpenMAX, SDP, STUN and RTSP parsing, configuration loading and logging.

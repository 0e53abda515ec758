# A model of the server's protocol core, with proofs

This project models the parts of the HTTP server *shitty* that turn octets into headers, frames and messages and messages
back into octets, and the objects that carry them, in Dafny 4.11. `dafny verify dfyconfig.toml` checks it.

The model follows the code, also where the code misses what it is for. Where a property that the protocol or the code's own
comments promise is not true of the code, there is the exact condition under which it is true, as an equivalence over
all inputs, and where it helps a lemma with an input that breaks it.

| file | what it models |
|---|---|
| `Wrappers.dfy`, `Octets.dfy` | optional values; octets, C's shifts, masks and ORs, and the bit sequences they stand for |
| `HuffmanCode.dfy` | the code table of RFC 7541, Appendix B, the decoder's six lookup tables, and how they fit each other |
| `HuffmanStream.dfy` | the cascade of the tables over a bit stream, against the prefix code; strings as code words |
| `BitReader.dfy`, `HuffmanDecoder.dfy` | the bit reader object and the decoder's loop |
| `HuffmanEncoder.dfy` | the bit packer and the Huffman string literal |
| `HuffmanInput.dfy` | which octets the Huffman decoder takes, and which of them it should |
| `Number.dfy`, `HpackString.dfy` | prefix integers and string literals (sections 5.1 and 5.2 of RFC 7541) |
| `HeaderTable.dfy`, `HeaderEncoding.dfy` | static and dynamic table, and the forms that headers keep (sections 2.3 and 4 of RFC 7541) |
| `HeaderDecoder.dfy`, `HeaderBlock.dfy`, `HeaderForms.dfy`, `StaticRows.dfy` | the decoder object, header blocks, what becomes of encoded forms, and what each static index stands for (section 6 and Appendix A of RFC 7541) |
| `Http2Wire.dfy` | frame headers and SETTINGS payloads (sections 4.1 and 6.5.1 of RFC 7540) |
| `FrameReader.dfy`, `Http2Transport.dfy` | the HTTP/2 receive loop: as a function of the octets, and as an object over the input buffer |
| `Http1Text.dfy` | lines, white space, header lines, numbers and first lines of HTTP/1 |
| `Http1Reader.dfy`, `Http1Transport.dfy` | the HTTP/1 input loop: as a function of the octets, and as an object over the input buffer |
| `Http1Messages.dfy`, `Http1Delivery.dfy` | printed messages, and the reads that bring them across |
| `SwitchTransport.dfy` | the choice between HTTP/1 and HTTP/2 |
| `StreamBuf.dfy`, `Output.dfy`, `OutputRuns.dfy`, `Connection.dfy` | the byte buffer; a connection's sends and whole runs of them as a state machine over any kernel; the payload and connection objects |
| `Server.dfy` | descriptors and connections in the event loop |

What stands for the outside:

- A bit stream goes on with 1s for ever behind its last octet, as the bit reader makes it do.
- A read appends any octets to the input buffer; `Feed` and `FeedAll` say what a list of reads leads to.
- A socket answers each send from a list of answers: so many octets taken, try again, or failure.
- The kernel hands out any descriptor that is not open, and events of any connections that are.
- Exceptions are results. Nothing catches them, so a connection whose transport has thrown is dead.
- Handlers that the library user or other parts supply, the order of a hash map, the sign of `char`, uninitialised octets
  and whether assertions are compiled in are parameters.

Where the code and its documentation disagree, the code is followed:

- `src/dependencies/hpack/huffy/encode.c:12` says that `existing_bits` is at most 7. It becomes 8; the invariant is [0,8].
- Section 5.2 of RFC 7541 allows at most seven bits of padding and forbids the end code. The decoder takes eight 1s for the
  end and stops at the end code; `HuffmanInput.dfy` says which octets it should not have taken.
- `src/dependencies/hpack/header.cpp:339-349` evicts for a smaller table but keeps the old limit, and its assertion fails
  whenever it is reached. Line 527 tests bit 0x02 where the pattern has 0x20.
- `src/http1/Transport.cpp:76` leaves octets that follow a head where they are, and line 102 takes all there is for the body.
- `src/http2/ServerTransport.cpp:340` takes a ping's payload off the buffer, and line 294 does so again.
- `src/Connection.h:49` says that what cannot be sent at once is queued. Nothing then asks for the event that would send it.
- `src/Connection.cpp:169` offers the socket more octets after every short send, not fewer.

## Model

| member | source | states |
|---|---|---|
| HuffmanCode.CodeShape | src/dependencies/hpack/huffy/huffcodes.txt:39-294 | every symbol's code word has 5 to 30 bits and lies in the range of values that the canonical code gives its length |
| HuffmanCode.CodeInWindow | src/dependencies/hpack/huffy/huffcodes.txt:39-294 | the windows that a code word starts are a range of their own, told from those of other lengths by fixed bounds |
| HuffmanCode.SameCode | src/dependencies/hpack/huffy/huffcodes.txt:39-294 | code words looked up by the same window that both start it are the same |
| HuffmanCode.CascadeIsSound | src/dependencies/hpack/huffy/decode.c:1691-1789 | for every window of four octets, the symbol that the six tables report is one whose code word starts the window, with that word's length |
| HuffmanCode.CascadeIsComplete | src/dependencies/hpack/huffy/decode.c:20-1644 | for every symbol and every window that its code word starts, the tables report that symbol; so no INVALID entry is reached |
| HuffmanStream.CascadeRefinesCode | src/dependencies/hpack/huffy/decode.c:1691-1789 | at every bit of every stream, the cascade reports a symbol with its code's length if and only if that code word comes next |
| HuffmanStream.CascadeRefinesEnd | src/dependencies/hpack/huffy/decode.c:1750-1789 | the cascade reports the end of the string if and only if 30 1s come next |
| HuffmanStream.PrefixFree | src/dependencies/hpack/huffy/huffcodes.txt:39-294 | at most one symbol's code word can come next |
| HuffmanStream.CodeIsNotAllOnes | src/dependencies/hpack/huffy/bitbuf.c:49-74 | padding is never a code word |
| HuffmanStream.DecodedInvertsCodeBits | src/dependencies/hpack/huffy/decode.c:1691-1789 | reading symbols from any string's code words and less than an octet of 1s gives the string back and stops behind its last code word |
| BitReader.Reader.constructor | src/dependencies/hpack/huffy/bitbuf.c:76-88 | a new reader is at bit 0 of its input |
| BitReader.Reader.LoadNext | src/dependencies/hpack/huffy/bitbuf.c:13-47 | refilling drops exactly the given bits and keeps the invariant that ties both octets, the bits used and the end countdown to one position in the input followed by 1s |
| BitReader.Reader.Next | src/dependencies/hpack/huffy/bitbuf.c:92-95 | seeking k bits moves the position by k, for k in 1 to 8, and returns the window there |
| BitReader.Reader.Windows | src/dependencies/hpack/huffy/bitbuf.c:49-90 | the current octet is the 8-bit window at the position, the next one the following bits left-aligned, the countdown is -1 if and only if more than 8 bits remain, and end of string holds if and only if at most 8 bits remain and all are 1 |
| HuffmanDecoder.Pass | src/dependencies/hpack/huffy/decode.c:1691-1789 | one pass of the loop returns what the cascade says at the reader's position, and moves by exactly the code word's length; all table indices and seeks are in range |
| HuffmanDecoder.LongPass | src/dependencies/hpack/huffy/decode.c:1712-1789 | the same behind a first octet of 0xfe or 0xff |
| HuffmanDecoder.HuffmanDecode | src/dependencies/hpack/huffy/decode.c:1671-1792 | for any input, first-octet width and destination: the symbols that the stream spells are written as far as there is room and nothing else is touched; the result is their count, -1 when the room is too small, -3 for a bad width |
| HuffmanDecoder.DecodedLength | src/dependencies/hpack/huffy/decode.c:1691-1789 | any n bits spell at most n/5 symbols and one more |
| HuffmanDecoder.EnoughRoom | src/dependencies/hpack/header.cpp:454-473 | a destination of 8n/5 + 1 octets is never too small for n octets, valid or not |
| HuffmanDecoder.DecodesCodeBits | src/dependencies/hpack/huffy/decode.c:1671-1792 | octets that are a string's code words and padding decode to that string where there is room for it, and to the error -1 where there is not |
| HuffmanInput.DecodedIsThere | src/dependencies/hpack/huffy/decode.c:1691-1789 | for any octets, valid or not, the symbols read are spelled by exactly the bits up to where reading stops |
| HuffmanInput.AllowedExactly | src/dependencies/hpack/huffy/bitbuf.c:49-74 | octets are code words and less than an octet of 1s if and only if reading stops less than an octet from the end, at nothing but 1s |
| HuffmanInput.AllowedReencodes | src/dependencies/hpack/huffy/decode.c:1671-1792 | they are, if and only if encoding the decoded symbols gives the same octets again |
| HuffmanInput.TakenExactly | src/dependencies/hpack/header.cpp:454-473 | with the header decoder's room every input is taken, so the ones taken wrongly are those that do not encode so again |
| HuffmanInput.TooMuchPadding | src/dependencies/hpack/huffy/bitbuf.c:72-73 | octets of 1s are not allowed and pass for the empty string, one of them even without room |
| HuffmanInput.Example | src/dependencies/hpack/huffy/huffcodes.txt:39-294 | the status "302" of RFC 7541, section C.6, is 64 02, both ways |
| HuffmanEncoder.Encode | src/dependencies/hpack/huffy/encode.c:11-80 | the buffer gets the code words of the input, padded with 1s to whole octets; the count is returned, or -1 if and only if they do not fit, and then the part that fits has been written |
| HuffmanEncoder.PutMiddle | src/dependencies/hpack/huffy/encode.c:47-55 | the whole octets inside a long code are put out in order, as far as there is room |
| HuffmanEncoder.PackedBits | src/dependencies/hpack/huffy/encode.c:66-79 | the octets written spell the code words followed by fewer than eight 1s |
| HuffmanEncoder.CodeWordsInPlace | src/dependencies/hpack/huffy/encode.c:16-64 | the i-th code word stands where those of the first i octets end |
| HuffmanEncoder.HuffmanEncode | src/dependencies/hpack/huffy/encode.c:82-128 | for any input and buffer: the literal is the length with a 7-bit prefix under the Huffman bit and then the payload, moved up where the prefix is longer, and octets behind it are untouched; -1 when the payload does not fit; the end of the buffer is overrun if and only if the payload fits behind one octet and the whole literal does not |
| HuffmanEncoder.PutPrefix | src/dependencies/hpack/huffy/encode.c:116-127 | the payload moves behind the whole prefix, which gets its Huffman bit; what follows stays |
| Number.DecodeNumber | src/dependencies/hpack/number.c:20-54 | the loop computes the number that the octets spell, modulo 2^64, and the octets used, or the code of the error, for all inputs and prefix widths |
| Number.EncodeNumber | src/dependencies/hpack/number.c:59-94 | the buffer starts with the number's octets and is otherwise as before, or the result is -1 if and only if they do not fit |
| Number.NumberRoundTrip | src/dependencies/hpack/number.c:20-94 | every 64-bit number, with every prefix and any octets behind it, is read back with its length, which is at most 11; the bits above the prefix stay |
| Number.EncodingIsShortest | src/dependencies/hpack/number.c:59-94 | no octet string shorter than a number's encoding decodes to it |
| Number.BigNumbersWrap | src/dependencies/hpack/number.c:36-51 | every number from 2^64 up to 2^70 is accepted without an error and loses its top bits |
| Number.ReadFailsExactly | src/dependencies/hpack/number.c:20-54 | no number is read just where it does not end within ten octets behind a full prefix; the codes are -1 where the octets end and -2 where they go on |
| Number.Examples | src/dependencies/hpack/number.c:59-94 | the examples of RFC 7541, section C.1 |
| HpackString.HpackEncodeString | src/dependencies/hpack/header.cpp:198-253 | the literal that the code settles on, for strings of any length, with the raw length narrowed to 32 bits; or a buffer overrun |
| HpackString.ShorterFormIsChosen | src/dependencies/hpack/header.cpp:207-252 | where the scratch buffer suffices and lengths have 32 bits, that is the shorter of both literals, prefixes included |
| HpackString.OverrunsExactly | src/dependencies/hpack/header.cpp:199-205 | otherwise, with lengths of 32 bits, a buffer is overrun |
| HpackString.TenOctetsOfSlack | src/dependencies/hpack/header.cpp:199-205 | the scratch buffer suffices for all strings of a length if and only if that is at most 117 |
| HpackString.Span.Skip | src/dependencies/hpack/header.cpp:422-434 | a span gives up exactly its first octets |
| HpackString.DecodeRawString | src/dependencies/hpack/header.cpp:416-437 | a raw literal yields its octets, twice, and leaves what follows; errors where the length is malformed or too big |
| HpackString.DecodeHuffmanString | src/dependencies/hpack/header.cpp:439-476 | a Huffman literal yields the decoded string and the literal's own octets and leaves what follows; the scratch buffer is always big enough |
| HpackString.DecodeString | src/dependencies/hpack/header.cpp:478-486 | the top bit decides which; an empty buffer is an error |
| HpackString.RawRoundTrip | src/dependencies/hpack/header.cpp:416-437 | every raw literal with any tail is read back, its octets and the tail exact |
| HpackString.HuffmanRoundTrip | src/dependencies/hpack/header.cpp:439-476 | every Huffman literal with any tail is read back, its octets and the tail exact: encoder, packer, reader and all tables together |
| HpackString.PayloadRoundTrip | src/dependencies/hpack/huffy/random-test.c:42-103 | for every octet string, the packed code words decode to it, in any destination of at least its length |
| HpackString.EncodeAndDecode | src/dependencies/hpack/huffy/random-test.c:42-103 | running the encoder and then the decoder over any string returns the string |
| HpackString.StringRoundTrip | src/dependencies/hpack/header.cpp:198-253 | the encoder's output is one of the two literals of the string if and only if the uninitialised octet has a clear top bit or the Huffman form is no longer than the raw one; then the string, the exact octets and the exact tail are read back |
| HpackString.SetTopBitBreaksRawLiterals | src/dependencies/hpack/header.cpp:223-236 | otherwise the raw literal is read as Huffman code and never as itself, but for strings that start as the code word of their first octet does |
| HeaderEncoding.NameEncoded | src/dependencies/hpack/header.cpp:255-262 | the form that is kept, or the encoder's, which is kept from then on |
| HeaderEncoding.ValueEncoded | src/dependencies/hpack/header.cpp:264-271 | the form that is kept, or the name's |
| HeaderEncoding.NameFormReads | src/dependencies/hpack/header.cpp:255-262 | a form made up for a name is read as the name; one that is kept stays |
| HeaderEncoding.ValueFormReads | src/dependencies/hpack/header.cpp:264-271 | one made up for a value is read as the value if and only if the name is the same; one that is kept stays |
| HeaderTable.EvictedIsLongestPrefix | src/dependencies/hpack/header.cpp:326-329 | eviction keeps the longest prefix of the table that fits |
| HeaderTable.RunKeepsLimit | src/dependencies/hpack/header.cpp:311-350 | after every run of inserts and size updates the table is no larger than its limit, which is the largest ever set |
| HeaderTable.InsertedKeepsLimit | src/dependencies/hpack/header.cpp:311-330 | an insert never leaves the table larger than its limit |
| HeaderTable.SizeCountsEverything | src/dependencies/hpack/header.cpp:180-183 | a table's size is 32 octets an entry and all octets of names and values |
| HeaderTable.InsertedExactly | src/dependencies/hpack/header.cpp:311-330 | the new entry comes first, with as many of the newest others behind it as fit, or nothing is left where it does not fit itself |
| HeaderTable.ResizedExactly | src/dependencies/hpack/header.cpp:332-350 | as many of the newest entries stay as fit the new limit, smaller or not |
| HeaderTable.StepsAreExact | src/dependencies/hpack/header.cpp:311-350 | both are so at every step of every run |
| HeaderTable.AgreesWithStandard | src/dependencies/hpack/header.cpp:311-350 | entries and limit are those of sections 4.3 and 4.4 of RFC 7541 after every step of a run if and only if no update shrinks the limit |
| HeaderTable.EntriesAgreeWithStandard | src/dependencies/hpack/header.cpp:311-350 | the entries alone are the standard's after every step, and stay so whatever is inserted next, under the same condition and no other |
| HeaderTable.ShrunkLimitIsForgotten | src/dependencies/hpack/header.cpp:338-349 | an entry that a smaller limit excludes is inserted all the same |
| HeaderTable.DynamicTable.constructor | src/dependencies/hpack/header.cpp:273-275 | an empty table of 4096 octets |
| HeaderTable.DynamicTable.Get | src/dependencies/hpack/header.cpp:277-288 | indices from 62 on reach the entries, newest first; others fail |
| HeaderTable.DynamicTable.HpackSize | src/dependencies/hpack/header.cpp:295-302 | the loop computes the size of section 4.1 |
| HeaderTable.DynamicTable.Insert | src/dependencies/hpack/header.cpp:311-330 | the new entry stands before the longest prefix of the old table that fits; one too big empties the table |
| HeaderTable.DynamicTable.Resize | src/dependencies/hpack/header.cpp:332-350 | a larger limit is kept, a smaller one evicts to the longest prefix that fits and is not kept; the assertion aborts exactly when there is something to evict |
| HeaderDecoder.Decoder.DecodeIndexed | src/dependencies/hpack/header.cpp:405-414 | the header at the index, narrowed to 32 bits, in either table, and the octets behind the index |
| StaticRows.OneOctet | src/dependencies/hpack/header.cpp:377-387 | an octet from 0x81 to 0xfe is, as a block, the header at its index |
| StaticRows.Octets81To8A | src/dependencies/hpack/header.cpp:361-367 | the octets 0x81 to 0x8a are the headers that RFC 7541, Appendix A, lists there, names and values spelled out |
| StaticRows.Octets8BTo94 | src/dependencies/hpack/header.cpp:361-367 | the octets 0x8b to 0x94 are the headers that RFC 7541, Appendix A, lists there, names and values spelled out |
| StaticRows.Octets95To9E | src/dependencies/hpack/header.cpp:361-367 | the octets 0x95 to 0x9e are the headers that RFC 7541, Appendix A, lists there, names and values spelled out |
| StaticRows.Octets9FToA8 | src/dependencies/hpack/header.cpp:361-367 | the octets 0x9f to 0xa8 are the headers that RFC 7541, Appendix A, lists there, names and values spelled out |
| StaticRows.OctetsA9ToB2 | src/dependencies/hpack/header.cpp:361-367 | the octets 0xa9 to 0xb2 are the headers that RFC 7541, Appendix A, lists there, names and values spelled out |
| StaticRows.OctetsB3ToBD | src/dependencies/hpack/header.cpp:361-367 | the octets 0xb3 to 0xbd are the headers that RFC 7541, Appendix A, lists there, names and values spelled out |
| StaticRows.DynamicOctets | src/dependencies/hpack/header.cpp:277-288 | the octets from 0xbe on are the entries of the dynamic table, the newest first |
| StaticRows.NameFromRow | src/dependencies/hpack/header.cpp:488-517 | a literal with an indexed name has the name of that row, its own value and mark, and is inserted as it should be |
| StaticRows.NameFromLiteral | src/dependencies/hpack/header.cpp:496-517 | one with a spelled name has that, and keeps the octets that spelled name and value |
| HeaderDecoder.Decoder.DecodeLiteralIndexed | src/dependencies/hpack/header.cpp:489-494 | the indexed entry with the value that follows |
| HeaderDecoder.Decoder.DecodeLiteral | src/dependencies/hpack/header.cpp:496-517 | a literal header as section 6.2 of RFC 7541 spells it, and the octets behind it |
| HeaderDecoder.Decoder.DecodeLiteralIncremental | src/dependencies/hpack/header.cpp:519-523 | the same, inserted into the table |
| HeaderDecoder.Decoder.DecodeLiteralNeverIndexed | src/dependencies/hpack/header.cpp:545-550 | the same, marked, with the table as it was |
| HeaderDecoder.Decoder.DynamicTableResize | src/dependencies/hpack/header.cpp:525-538 | a size update, its misplaced test, its abort and its error |
| HeaderDecoder.Decoder.ParseField | src/dependencies/hpack/header.cpp:556-569 | the first octet picks the representation, which is read against the table |
| HeaderDecoder.Decoder.ParseHeaders | src/dependencies/hpack/header.cpp:552-572 | the loop yields the headers and the table that the block's octets mean, to the last octet, or the error of the first representation that is wrong |
| HeaderBlock.SizeUpdateReads | src/dependencies/hpack/header.cpp:525-538 | a printed size update of up to 64 bits acts as section 4.2 wants if and only if it does not shrink, has the misplaced bit set and has at most 32 bits; without that bit it is an error, and beyond 32 bits it is narrowed; with assertions it aborts exactly where there is something to evict |
| HeaderBlock.IndexedReads | src/dependencies/hpack/header.cpp:405-414 | an index of up to 64 bits is read as its low 32 bits, which is right if and only if it has no others or there is no entry at those |
| HeaderBlock.IndexedLiteralReads | src/dependencies/hpack/header.cpp:488-507 | the same of the index of a literal's name |
| HeaderBlock.IndexedLiteralWorks | src/dependencies/hpack/header.cpp:488-507 | and that is right under the same condition |
| HeaderBlock.RepresentationReads | src/dependencies/hpack/header.cpp:552-572 | every representation, valid or not, with either string form, 64-bit numbers and any tail, is read back to its header and table effect, or to an error, if and only if it is none of the indices and size updates that do not work |
| HeaderBlock.BlockReads | src/dependencies/hpack/header.cpp:552-572 | every list of representations that work, printed, parses to the headers and the table of a simple list interpreter, or to an error at the first that is not valid |
| HeaderBlock.BlockReadsExactly | src/dependencies/hpack/header.cpp:552-572 | it does so after each of its representations if and only if all of them work |
| HeaderBlock.BlocksConcatenate | src/dependencies/hpack/header.cpp:552-572 | parsing two blocks in turn is parsing their concatenation, for any octets |
| HeaderBlock.CutStringFails | src/dependencies/hpack/header.cpp:416-486 | a string literal that is cut short anywhere is an error |
| HeaderBlock.CutRepresentationFails | src/dependencies/hpack/header.cpp:552-572 | and so is a representation |
| HeaderForms.FormIsRead | src/dependencies/hpack/header.cpp:416-486 | a string literal is read from the octets that are kept of it alone |
| HeaderForms.BlockFits | src/dependencies/hpack/header.cpp:489-517 | for any octets, all headers parsed and all entries of the table keep only encoded forms that are read as their names and values |
| Http2Wire.JoinInvertsBigEndian | src/http2/Frame.cpp:46-50 | four octets of a `char` buffer are joined to the big-endian number if and only if `char` is unsigned or no octet of 0x80 or more has a higher one that differs from 0xff |
| Http2Wire.FrameHeaderRoundTrip | src/http2/Frame.cpp:10-59 | every frame header that fits its fields survives writing and reading if and only if `char` is unsigned or its octets are safe in that sense |
| Http2Wire.HeaderOctetsRoundTrip | src/http2/Frame.cpp:10-59 | any nine octets, read with an unsigned `char`, are written back |
| Http2Wire.SignedCharMisreadsLength | src/http2/Frame.cpp:39-42 | with a signed `char`, a length of 128 is read as 0xffff80 |
| Http2Wire.CreateFromBuffer | src/http2/Settings.cpp:9-29 | an error if and only if the size is no multiple of six; else every setting has the value of the last entry with its identifier, or its default; unknown identifiers change nothing |
| Http2Wire.NoEntries | src/http2/Settings.h:26-34 | no entries leave the initial values of section 6.5.2 of RFC 7540, spelled out |
| Http2Wire.OneMoreEntry | src/http2/Settings.cpp:15-26 | one entry more sets the setting that it names, to its four octets, and no other; an identifier that is not known sets none |
| Http2Wire.WriteSettings | src/http2/Settings.cpp:31-39 | the payload is the entries of all six settings, in order |
| Http2Wire.SettingsRoundTrip | src/http2/Settings.cpp:9-39 | each written setting is read back if and only if `char` is unsigned or its value's octets are safe |
| FrameReader.PumpInTwo | src/http2/ServerTransport.cpp:226-297 | reading some octets and then others is reading them at once, where no ping request loses octets |
| FrameReader.PumpIsExhaustive | src/http2/ServerTransport.cpp:226-231 | what the loop leaves in the buffer yields nothing more by itself |
| FrameReader.SplitBehindPing | src/http2/ServerTransport.cpp:324-341 | otherwise a read can end where it makes a difference: behind the payload of such a ping request |
| FrameReader.ChunkIndependence | src/http2/ServerTransport.cpp:182-341 | log, pending header, leftover octets and fate of the connection are the same for all sizes of reads if and only if no ping request has eight octets behind its payload |
| FrameReader.PingSwallows | src/http2/ServerTransport.cpp:316-341 | a ping request with eight octets behind it is a stream that fails this, for either sign of `char` |
| FrameReader.PumpLosesEightAPing | src/http2/ServerTransport.cpp:226-340 | for any octets, either sign of `char`, and connections alive or dead: every octet is in a frame's header or payload, the pending header, the rejected frame or the buffer, in order, but for eight behind the payload of every ping request, or fewer that the connection ends on |
| FrameReader.FollowsStandard | src/http2/ServerTransport.cpp:294-340 | a stream that is fine by section 4.1 of RFC 7540 is read so if and only if it has no ping request |
| FrameReader.FrameIsRead | src/http2/ServerTransport.cpp:233-256 | a written frame is read as its header and then its payload, with anything behind it |
| FrameReader.DataEnds | src/http2/ServerTransport.cpp:411-423 | a written DATA frame ends the connection |
| FrameReader.HeadersGoOn | src/http2/ServerTransport.cpp:452-458 | one of HEADERS is handled if and only if the application takes it |
| FrameReader.ResetGoesOn | src/http2/ServerTransport.cpp:343-363 | one of RST_STREAM if and only if it has four octets and a stream |
| FrameReader.SettingsGoOn | src/http2/ServerTransport.cpp:365-378 | one of SETTINGS, if it is no acknowledgement, if and only if there are settings to be made of it |
| FrameReader.WrittenSettingsGoOn | src/http2/ServerTransport.cpp:365-378 | so written settings always are |
| FrameReader.AcknowledgementsGoOn | src/http2/ServerTransport.cpp:314-319 | acknowledgements of settings and pings always are |
| FrameReader.PingEndsOrSwallows | src/http2/ServerTransport.cpp:314-341 | a ping request ends the connection if it has a stream or not eight octets, or fewer than eight behind it; else it swallows eight |
| FrameReader.WindowUpdateGoesOn | src/http2/ServerTransport.cpp:505-518 | WINDOW_UPDATE is handled if and only if it has four octets and the application takes it |
| FrameReader.OthersGoOn | src/http2/ServerTransport.cpp:288-291 | frames of all other types are handled, whatever is in them |
| Http2Transport.ServerTransport.OnInput | src/http2/ServerTransport.cpp:182-187 | the object's state after any input is that of the receive loop, preface or not |
| Http2Transport.EarlyFrames | src/http2/ServerTransport.cpp:182-187 | a beginning of less than a preface is left alone if and only if it is less than a frame header |
| Http2Transport.PrefaceSpelled | src/http2/Protocol.h:7-10 | the preface is the text of section 3.5 of RFC 7540 |
| Http2Transport.PrefaceExactly | src/http2/ServerTransport.cpp:210-224 | 24 octets or more that do not start with that text end the connection; else frames are read behind it |
| Http2Transport.ServerTransport.ReceivePreface | src/http2/ServerTransport.cpp:210-224 | the 24 octets of the preface leave the buffer, anything else ends the connection, fewer are waited for |
| Http2Transport.ServerTransport.ReceiveFrames | src/http2/ServerTransport.cpp:226-231 | the loop reaches the state of the receive function |
| Http2Transport.ServerTransport.ReceiveFrame | src/http2/ServerTransport.cpp:233-242 | one turn of it, and whether there may be another |
| Http2Transport.ServerTransport.ReceiveFrameHeader | src/http2/ServerTransport.cpp:244-256 | nine octets become the pending header; fewer stay |
| Http2Transport.ServerTransport.ProcessFrameBody | src/http2/ServerTransport.cpp:258-297 | a frame is handled and its payload leaves the buffer, a ping request's twice; or the connection is dead and why |
| Http2Transport.ServerTransport.ReceivePing | src/http2/ServerTransport.cpp:316-341 | a ping request's handler takes its eight octets off the buffer |
| Http1Text.FirstNewline | src/http1/HTTP1.cpp:28-30 | the scan ends at the first newline |
| Http1Text.FindEndOfLine | src/http1/HTTP1.cpp:11-31 | the end of the first line, or none if and only if there is no newline |
| Http1Text.LineEnd | src/http1/HTTP1.cpp:11-31 | a newline ends the line and there is none before it |
| Http1Text.LineOctets | src/http1/HTTP1.cpp:113-128 | the octets are the first line's and the rest; alone they are that line and nothing else |
| Http1Text.FirstLineStable | src/http1/HTTP1.cpp:113-128 | a line once complete is not changed by more octets, which all follow it |
| Http1Text.LineRoundTrip | src/http1/HTTP1.cpp:102-128 | text, CR and LF, and any tail are read back as that line and tail if and only if the text has no newline |
| Http1Text.LoneNewline | src/http1/HTTP1.cpp:102-128 | text and a newline alone are read back if and only if the text has no newline and does not end in CR |
| Http1Text.TrimTrailingLWS | src/StringUtils-inl.h:7-22 | the last octet that is no white space goes too, unless nothing is to be trimmed; a lone white space stays |
| Http1Text.TrimLeadingLWS | src/StringUtils-inl.h:28-40 | the rest from the first octet that is no white space |
| Http1Text.TrimLWS | src/StringUtils-inl.h:42-45 | one after the other |
| Http1Text.TrimsWhatItShould | src/StringUtils-inl.h:7-45 | both ends are trimmed as meant if and only if there is no white space at the end or there is nothing else |
| Http1Text.SpacesAndTabs | src/StringUtils-inl.h:7-45 | white space is spaces and tabs: a value between them is cut out, and loses its last octet if there were any behind it |
| Http1Text.FieldRoundTrip | src/http1/Transport.cpp:155-178 | a printed header line parses to its name and value if and only if the name is lower-case without colon and the value has no outer white space |
| Http1Text.ColonStaysInValue | src/http1/Transport.cpp:160-174 | the value of every header line without a space behind the colon: the colon, and the rest without white space at the end, less one octet if there was any |
| Http1Text.HeaderLineReads | src/http1/Transport.cpp:155-178 | any header line is read as its lower-case name and trimmed value if and only if, with a space behind the colon, there is no white space at the end or nothing else, and without one, there is white space at the end and only colons before it |
| Http1Text.LowersLetters | src/StringUtils-inl.h:47-51 | lowering leaves no upper-case letter, changes nothing else, and makes names the same if and only if they differ in case only |
| Http1Text.LengthReads | src/http1/HTTP1.cpp:38-52 | every 64-bit number printed in decimal is read back by the length parser |
| Http1Text.StoulReads | src/http1/HTTP1.cpp:42-46 | white space, a sign, a number of 64 bits and what is no digit are read as the number, or as what it wraps to behind a minus; more bits are an error |
| Http1Text.StoulNeedsDigits | src/http1/HTTP1.cpp:42-46 | without a digit there is an error |
| Http1Text.RequestLineRoundTrip | src/http1/HTTP1.cpp:79-155 | a printed request line parses to its parts if and only if method and path have no space |
| Http1Text.RequestLineReads | src/http1/HTTP1.cpp:130-155 | any line is told apart by its first two spaces; without two there is an error |
| Http1Text.RequestLineReprints | src/http1/HTTP1.cpp:138-155 | the parts of any line that parses make up that line |
| Http1Text.StatusLineRoundTrip | src/http1/HTTP1.cpp:84-204 | there are status lines exactly for the codes from 100 to 599, spelled so, and each parses to its code |
| Http1Text.StatusLineReads | src/http1/HTTP1.cpp:175-204 | a status line with any three digits is read as they are, if its version has no space |
| Http1Text.StatusLineReprints | src/http1/HTTP1.cpp:175-204 | any status line that parses is its version, the three digits of its code and its reason |
| Http1Reader.RunInTwo | src/http1/Transport.cpp:26-86 | reading some octets and then others is reading them at once, under the condition below |
| Http1Reader.RunInTwoAndMore | src/http1/Transport.cpp:26-86 | so does a longer second read, whatever more it brings |
| Http1Reader.RunMoves | src/http1/Transport.cpp:26-86 | octets leave a trace: a message handled, one in progress, or leftovers |
| Http1Reader.RunWithoutColon | src/http1/Transport.cpp:55-86 | octets without a colon lead neither to a wait for a body nor to a closed connection |
| Http1Reader.RunIsSound | src/http1/Transport.cpp:108-121 | a run of the loop keeps it that messages handled have the bodies announced |
| Http1Reader.TellingSplit | src/http1/Transport.cpp:68-77 | where the condition fails, there are two reads that lead elsewhere than one |
| Http1Reader.ChunkIndependence | src/http1/Transport.cpp:26-111 | messages handled, message in progress, leftover octets and fate of the connection are the same for all sizes of reads if and only if no octet follows a head that wants a body or a message that closes the connection |
| Http1Reader.ContinuedExactly | src/http1/Transport.cpp:180-190 | a folded header is put together, whatever header of its name the hash map finds, if and only if no header before has that name |
| Http1Reader.BodiesFit | src/http1/Transport.cpp:88-121 | for any octets in any reads, every message handed over has exactly the body length that its headers announce, and one in progress has not |
| Http1Reader.NoLengthMeans | src/http1/HTTP1.cpp:54-59 | without a length there is no body, or one in chunks if a transfer coding is named |
| Http1Reader.LengthMeans | src/http1/HTTP1.cpp:38-52 | a length named counts if it is a number and fits a signed size; else it is an error, and which |
| Http1Reader.SureToClose | src/http1/Transport.cpp:134-145 | a message closes the connection, whatever the hash map finds, if and only if it names the connection and says nothing but "close" of it |
| Http1Reader.CanClose | src/http1/Transport.cpp:134-145 | it can do so if and only if it says "close" at all |
| Http1Messages.RenderHeaders | src/http1/HTTP1.cpp:62-77 | the loop prints the lines of all headers in order and a blank line |
| Http1Messages.FieldIsRead | src/http1/Transport.cpp:155-178 | a printed header line is one line, and adds its header to the message in progress |
| Http1Messages.SendMessage | src/http1/Transport.cpp:207-223 | the octets are first line, headers and body; the headers are those given, with date, server and length where missing, in the hash map's order |
| Http1Messages.FieldsAreRead | src/http1/Transport.cpp:155-178 | printed headers, with any octets behind them, are added to the message in progress as they were and leave exactly those octets |
| Http1Messages.HeadIsRead | src/http1/Transport.cpp:55-77 | a printed head leaves the message waiting for its body, with the octets behind it untouched, or handled if it has none |
| Http1Messages.HeadLeads | src/http1/Transport.cpp:55-77 | behind any head that can be read, what its headers announce decides: a body, chunks, an error, or the handler |
| Http1Messages.ChunkedNeverArrives | src/http1/Transport.cpp:88-98 | a message with a transfer coding and no length is never handed over; the next read ends the connection |
| Http1Messages.BadLengthEnds | src/http1/HTTP1.cpp:42-49 | a length that is no number, or too big, ends the connection where the head does |
| Http1Messages.BadLinesEnd | src/http1/Transport.cpp:155-187 | a header line without colon ends the connection, and so does a folded line with nothing before it |
| Http1Messages.LengthInAnyCase | src/http1/Transport.cpp:155-178 | a length is announced in whatever case its name is spelled |
| Http1Messages.LengthFitsExactly | src/Headers.cpp:70-75 | the reader takes the body's length from the headers, whatever the hash map finds and in whatever order they leave, if and only if every length that the sender names is the body's |
| Http1Messages.DefaultsAdded | src/Stream.cpp:8-28 | a message leaves with its own headers, and with a date, the server's name and a length where it has none in any case, and nothing else |
| Http1Messages.SentIsWellFormed | src/http1/Transport.cpp:207-223 | what leaves for a message can be read back, in whatever order its headers leave, if its first line and date have no newline, its headers are printable, and any length they name is the body's |
| Http1Delivery.ReadsRun | src/http1/Transport.cpp:26-86 | between two messages, reads lead where one read of their octets does, up to the end of a head that wants a body |
| Http1Delivery.HeadArrives | src/http1/Transport.cpp:68-77 | the read that brings the end of a head leaves what it brings of the body in the buffer |
| Http1Delivery.BodyArrives | src/http1/Transport.cpp:101-121 | the next read completes the body exactly, or no message ever comes out of the connection again |
| Http1Delivery.MessagesArrive | src/http1/Transport.cpp:26-153 | any list of printed messages, in any reads, is handed over as it was, in order, with nothing left behind, if and only if the rest of every body is a read of its own and the read before it holds the end of the head |
| Http1Delivery.FinalExactly | src/http1/Transport.cpp:123-146 | of the last message: the handler throws, or it is handed over and the connection closes if it asks |
| Http1Delivery.Pipelined | src/http1/Transport.cpp:26-153 | messages without bodies are handed over so for all reads |
| Http1Delivery.MessageArrives | src/http1/Transport.cpp:26-153 | a printed message with a body is recovered from k reads if and only if k is at least 2 and the body is as long as the last read or longer, but shorter than the last two |
| Http1Delivery.SentMessageArrives | src/http1/Transport.cpp:26-223 | what is sent for any message that can be sent is read back to its first line, headers and body under that condition |
| Http1Transport.GetLine | src/http1/HTTP1.cpp:113-128 | the first line without its end leaves the buffer, or nothing does |
| Http1Transport.Transport.OnInput | src/http1/Transport.cpp:26-31 | the object's state after any input is that of the reader function |
| Http1Transport.Transport.ProcessInput | src/http1/Transport.cpp:37-86 | one step of it, and whether there may be another |
| Http1Transport.Transport.ReadBody | src/http1/Transport.cpp:88-106 | a body in chunks throws; other octets are appended to the body |
| Http1Transport.Transport.ReadContent | src/http1/Transport.cpp:101-106 | all octets there are go to the body, or it throws if they are fewer than the length |
| Http1Transport.Transport.MarkHeadersComplete | src/http1/Transport.cpp:113-121 | the expected length is the one announced, -1 for chunks, or an error |
| Http1Transport.Transport.HandleMessage | src/http1/Transport.cpp:123-153 | the message is handed over once, the next one starts afresh, and the connection closes if the message asks for it |
| Http1Transport.Transport.ResetIncomingMessage | src/http1/Transport.cpp:148-153 | nothing is in progress |
| Http1Transport.Transport.HeaderLine | src/http1/Transport.cpp:155-178 | one header line's effect on the message in progress |
| Http1Transport.Transport.HeaderContinuation | src/http1/Transport.cpp:180-190 | a continuation line's effect, on the header of that name that the hash map finds |
| SwitchTransport.ProtocolIsChosen | src/SwitchTransport.cpp:17-40 | for all reads: HTTP/2 if and only if the stream starts with the 24-octet preface, undecided if and only if it is a beginning of it, with all octets kept |
| SwitchTransport.SwitchInTwo | src/SwitchTransport.cpp:17-55 | one more read after any octets is one read of them all, under the condition of the protocol chosen |
| SwitchTransport.TellingHttp1 | src/SwitchTransport.cpp:26-52 | where it fails for HTTP/1, the reads that show it end behind the choice of the protocol |
| SwitchTransport.TellingHttp2 | src/SwitchTransport.cpp:32-52 | and so for HTTP/2 |
| SwitchTransport.ChunkIndependence | src/SwitchTransport.cpp:17-55 | protocol, messages or frames, leftovers and fate are those of one read of the whole stream, for all sizes of reads, if and only if the condition of the protocol chosen holds |
| SwitchTransport.RequestsArrive | src/SwitchTransport.cpp:17-55 | requests without bodies arrive over HTTP/1 in any reads: no octet is lost to the choice |
| SwitchTransport.FramesArrive | src/SwitchTransport.cpp:17-55 | behind the preface, frames arrive over HTTP/2 in any reads as without a switch |
| SwitchTransport.SwitchTransport.OnInput | src/SwitchTransport.cpp:17-55 | the successor gets every octet so far, preface included, and has processed them; or nothing has changed |
| StreamBuf.StreamBuf.Reserve | src/StreamBuf.h:71-76 | the capacity is at least that asked for; the contents stay |
| StreamBuf.StreamBuf.Ensure | src/StreamBuf.h:78-80 | there is room for so many more; the contents stay |
| StreamBuf.StreamBuf.AddTailContent | src/StreamBuf.h:48-50 | octets stored behind the contents join them |
| StreamBuf.StreamBuf.Clear | src/StreamBuf.h:52-54 | no contents, the same capacity |
| StreamBuf.StreamBuf.FillTail | src/Payload-inl.h:34-35 | octets copied behind the contents are appended |
| StreamBuf.StreamBuf.Advance | src/StreamBuf.cpp:9-21 | exactly the first octets go, or it throws and none does |
| StreamBuf.StreamBuf.Grow | src/StreamBuf.cpp:23-40 | there is room for at least 1024 octets and at least as many as are in use, if and only if those are at most half of the address space; there is none only when they are all of it; the contents stay |
| StreamBuf.StreamBuf.Write | src/StreamBuf.cpp:42-46 | octets are appended |
| Output.PushedInOrder | src/Connection.cpp:164-172 | for any answers of the kernel, the send loop puts the data from `total` on, as far as it gets, on the wire, unless it gets too far |
| Output.PushedModestly | src/Connection.cpp:164-172 | it gets too far if and only if the kernel takes more than is left of the data |
| Output.SentImmediateInOrder | src/Connection.cpp:164-186 | an immediate send appends its data to the output, or sends a part and closes; or more than the data leaves, if and only if the kernel takes more than is left |
| Output.EmptySendCloses | src/Connection.cpp:174-177 | sending nothing closes the connection |
| Output.JunkOnTheWire | src/Connection.cpp:169 | of any data of two octets or more, a kernel that takes one and then all it is offered gets two octets more than there are |
| Output.SentImmediateExactly | src/Connection.cpp:164-186 | over all kernels, an immediate send keeps the output in order or closes the connection if and only if the data is one octet at most |
| Output.PolledOutKeeps | src/Connection.cpp:127-149 | sending what is queued keeps the output, in order, whatever the kernel answers |
| Output.SentUpTo | src/Connection.cpp:155-191 | a send gets as far as the kernel takes octets, of the queue first; then the others wait if it is to be tried again, and the connection closes if it fails |
| Output.PolledUpTo | src/Connection.cpp:127-149 | the same when polled for output |
| Output.SentWhole | src/Connection.cpp:155-191 | a kernel that takes all leaves nothing queued and the connection open |
| OutputRuns.CorkedInOrder | src/Payload-inl.h:29-53 | a payload write appends its octets to the output, flushed, queued or corked |
| OutputRuns.CorksUpTo1440 | src/Payload-inl.h:42-53 | writes of up to 1440 octets in all stay together; what does not fit in sends those before to the queue |
| OutputRuns.StepInOrder | src/Connection.cpp:127-189 | over all kernels, a step appends its data to the output or closes the connection if and only if it sends one octet at most when nothing is queued, and sends nothing past a payload in use that the order matters for |
| OutputRuns.AccountHolds | src/Payload-inl.h:29-53 | the payload, and that something is queued after a flush, are known from the caller's own steps, whatever the kernel answers |
| OutputRuns.TellingRun | src/Connection.cpp:164-172 | where a step of a run is not safe, some kernel shows it |
| OutputRuns.OutputIsConserved | src/Connection.cpp:127-189 | over all kernels and whole runs: wire, queue and payload are together what was written, after every step of an open connection, if and only if every step is safe by what the caller has written and sent so far |
| OutputRuns.WireIsPrefix | src/Connection.cpp:127-189 | over all kernels and whole safe runs, closed half-way or not: what has left is the beginning of what was written |
| OutputRuns.NeverPolledForOutput | src/Connection.cpp:58-72 | no run ever subscribes to output events, so what is queued waits for the next send |
| Connection.Payload.Write | src/Payload-inl.h:42-53 | payload and queue after any write, whether it fits, flushes or goes past |
| Connection.Payload.Flush | src/Payload-inl.h:29-38 | the payload moves to the end of the queue |
| Connection.Connection.ReadSome | src/Connection.cpp:76-87 | nothing is read if and only if nothing has arrived or the buffer is the whole address space: no read without room passes for the end of the stream |
| Connection.Connection.KernelSend | src/Connection.cpp:169 | the kernel takes a prefix of what it is offered, or refuses |
| Connection.Connection.UpdateSubscription | src/Connection.cpp:58-72 | output events are asked for if and only if something is queued; it throws if and only if the connection is closed |
| Connection.Connection.Send | src/Connection.cpp:155-160 | wire, queue, answers, subscription and openness after any send |
| Connection.Connection.SendPayload | src/Connection.cpp:162-164 | the same for a payload |
| Connection.Connection.SendImmediate | src/Connection.cpp:164-186 | the same for the loop that sends at once |
| Connection.Connection.QueueAndSend | src/Connection.cpp:188-191 | the same behind octets that are queued already |
| Connection.Connection.OnPollOut | src/Connection.cpp:127-149 | the same for the loop that sends what is queued; it throws if and only if the connection is closed and nothing is |
| Server.CleanUpIsExact | src/Server.cpp:207-214 | cleaning up closes exactly the queued descriptors, each open and once, and destroys exactly their connections |
| Server.StepKeepsInv | src/Server.cpp:184-285 | every accept, close, dispatch and clean-up, in any state that the invariant allows, goes well and keeps it |
| Server.AcceptKeepsInv | src/Server.cpp:252-281 | a descriptor that the kernel hands out is not a client's, and the invariant is kept |
| Server.DispatchKeepsInv | src/Server.cpp:193-194 | the next event's receiver exists |
| Server.CloseKeepsInv | src/Connection.cpp:112-125 | closing any connection, again or not, keeps the invariant: no descriptor is queued twice |
| Server.CleanUpKeepsInv | src/Server.cpp:207-214 | so does cleaning up |
| Server.LoopIsSafe | src/Server.cpp:184-285 | in every run no accepted descriptor is a client's already, no event reaches a destroyed connection, and no closed descriptor is closed |
| Server.NoLeaks | src/Server.cpp:196-214 | after each clean-up of any run every client connection is open and the clients' descriptors in the kernel are exactly theirs |
| Server.EventsGoInOrder | src/Server.cpp:188-197 | over whole runs: the receivers of dispatched events, and then of those left in the batch, are those of all events waited for, in order |
| Server.BatchesAreWorkedOff | src/Server.cpp:188-197 | when a batch ends, all events so far have gone to their receivers |
| Server.DescriptorsLive | src/Server.cpp:207-285 | over whole runs: a descriptor is open, and a client's, from when it is accepted until the first batch that ends after its connection is closed |
| Server.CleanUpMustWait | src/Server.cpp:230-233 | destroying a closed connection before the batch is worked off would let an event reach it |
| Server.Server.Accept | src/Server.cpp:252-285 | a new open connection under the new descriptor; throws if and only if that is taken |
| Server.Server.Close | src/Connection.cpp:112-125 | an open connection's descriptor is queued, once; the connection stays |
| Server.Server.RemoveConnection | src/Server.cpp:283-285 | the descriptor is queued last |
| Server.Server.RemoveDeadClients | src/Server.cpp:207-214 | the loop does the whole clean-up |
| Server.Server.Perform | src/Server.cpp:226-240 | every event takes the object where the state machine goes |
| Server.Server.Loop | src/Server.cpp:184-205 | so does every run |

## Left out

- HuffmanEncoder.HuffmanEncode: what an overrun writes past the end of the buffer is not modelled, only that it happens.
- HpackString.HpackEncodeString: takes strings that leave 30 octets of the address space.
- HpackString.StringRoundTrip: takes strings of up to an eighth of the address space.
- HpackString.SetTopBitBreaksRawLiterals: says nothing of strings that start with the octets 0xff 0xff 0xfb.
- HeaderTable.DynamicTable.HpackSize: sizes do not wrap at 2^32, which takes a table limit or a header of 2 GiB and more.
- HeaderTable.EntriesAgreeWithStandard: is about limits of 32 octets and more, as any entry takes 32; the code starts with 4096.
- HeaderDecoder.Decoder.ParseHeaders: the message of an exception is not modelled, only that there is one.
- StreamBuf.StreamBuf.Grow: allocation never fails.
- FrameReader.ChunkIndependence: the content checks of HEADERS and WINDOW_UPDATE are a parameter that accepts or throws, depending on all frames so far; DATA always throws, as no stream becomes open; flow control, padding, CONTINUATION and the replies to frames are not modelled.
- Http1Reader.ChunkIndependence: upgrades to another transport are not modelled, nor connections that a handler closes while it runs, nor the replies to an Expect header.
- Http1Messages.LengthFitsExactly: names are compared in ASCII lower case, without a locale.
- OutputRuns.OutputIsConserved: a closed connection's queue is not followed further; sending keeps the octets of a payload, which is not used again after it has been sent.
- Server.Server.Loop: ends with its events; at shut-down the code destroys the connections left without closing their descriptors, which the process's end closes.
- Null pointers, which the C functions reject.
- `string_decode` and `string_decode_alloc`, which the header decoder does not use.
- The tables' `getIndex`, which are stubs.
- Chunked bodies, which throw, and base64 settings, which an external library decodes.
- Sockets, epoll, signals and clocks as real calls.
- Routing, responders, the proxy and its connection pool.

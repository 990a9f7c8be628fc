# XSES ITCH over MoldUDP64: a verified model of the frame decoder

This project models the decoder that turns captured Ethernet frames of the
SGX/XSES ITCH market-data feed into text lines. Each frame carries IPv4 and
UDP. The UDP payload is a MoldUDP64 downstream packet: a 20-byte header
(session, sequence number, message count) followed by length-prefixed ITCH
message blocks. The decoder does the following:

- It skips every frame whose EtherType is not IPv4 or whose IPv4 protocol
  is not UDP.
- It prints one heartbeat line for a packet announcing 0 messages, and one
  end-of-session line for a packet announcing 0xFFFF.
- Otherwise it walks exactly the announced number of blocks. The offset
  advances by two plus the declared length each time.
- Each block becomes one line: the session without its padding, the
  sequence number of the block (the header's number plus the block's
  index, as a 64-bit sum), and the text of the record. That text comes from
  a switch on the message's first byte: a record type is rendered by its
  `to_string`, anything else gives "message type not matched".

The modules follow the source files:

| module | source | contents |
|---|---|---|
| `Utils` | utils.h | big-endian field conversion on a little-endian host; `alpha_to_string` as a right trim, with the source's backward loop as a method |
| `Constants` | constants.h | field types and widths, transport and MoldUDP64 lengths, message type codes |
| `MoldUdp64` | moldudp64_protocol.h | the 20-byte header view and its getters |
| `Itch` | itch_protocol.h | the message block view, the thirteen packed record layouts, reading and writing records |
| `Printf` | (the `sprintf` conversions of itch_protocol.h) | `%u`, `%d`, `%016lX`, the NUL cut of a C string, comma join and split |
| `ItchText` | itch_protocol.h | each record's `to_string` |
| `Decoder` | main.cc | `decode` and `callback`, the latter as a method with the block loop |
| `Wrappers` | (none) | `Option` and `Result` |

The source reads the frame through pointer casts and never checks its
length. The model guards every read. A read that would fall past the end
of the frame ends that frame's output with an `OutOfFrame` entry. The
entry names the frame offset where the field, header, block or message
whose read fails starts: the EtherType, the IPv4 protocol byte, the
MoldUDP64 header, a block with less than its two-byte prefix left, or a
message shorter than the bytes its text needs. Where the frame holds the
bytes, the model reads what the code reads:

- A record's fields are read from the bytes after the length prefix, even
  beyond the block's declared length. The code never compares the two.
- A message needs only the bytes its `to_string` reads. For every record
  type but two, these are the whole record. `OrderReplace` prints a fixed
  text and needs only its type byte. `OrderExecuted` prints no reserved
  field and needs 38 of its 52 bytes.
- A declared length that runs past the end of the frame is not an error by
  itself. Only the next read that falls outside the frame is.
- Frames that fail the EtherType or protocol check give no output at all,
  not an informational line.
- The fallback text is "message type not matched", as the code prints it.

## Model

| member | source | states |
|---|---|---|
| Utils.BigEndianToHost | utils.h:11-22 | for a 2-, 4- or 8-byte integer the bytes the host stores for the result are those of the argument in reverse order; any other width is returned unchanged |
| Utils.HostToBigEndian | utils.h:25-33 | the same byte reversal for 2-, 4- and 8-byte integers, identity for other widths |
| Utils.ConversionsInvert | utils.h:11-33 | `host_to_big_endian` and `big_endian_to_host` undo each other, for every width and value |
| Utils.HostReadsWireFieldBigEndian | utils.h:17-21 | a 1-, 2-, 4- or 8-byte field loaded by the little-endian host and then converted is the value whose most significant byte is the first wire byte |
| Utils.BigEndianUnique | utils.h:17-20 | a big-endian field is determined by its value: encoding the value read gives the same bytes back |
| Utils.TrimRight | utils.h:35-46 | the result is a prefix of the field, does not end in a space, everything dropped is a space, and it is empty exactly when the field is all spaces |
| Utils.AlphaToString | utils.h:35-46 | the backward scan that returns at the first character from the right that is not a space returns the right-trimmed field |
| Utils.PadThenTrim | utils.h:35-46 | a text with no trailing space, padded with spaces to the field size, trims back to itself |
| Utils.TrimThenPad | utils.h:35-46 | a trimmed field padded back to its size is the field |
| Constants.ToPrice | constants.h:22 | a 32-bit pattern read as `Price_t` is two's complement: non-negative exactly below 2^31, and congruent to the pattern modulo 2^32 |
| Constants.PriceBits | constants.h:22 | every price has a 32-bit pattern that reads back as that price |
| Constants.FromCode | constants.h:45-61 | a character maps to a message type exactly when it is that type's code, and to none when no type has it |
| Constants.CodesIdentifyTypes | constants.h:45-61 | every type's code maps back to that type, and it is an upper-case ASCII letter |
| Constants.CodeSet | constants.h:45-61 | the codes are exactly the fourteen letters A C D E G L M O P R S T U Z |
| MoldUdp64.DownstreamPacketHeader.GetSession | moldudp64_protocol.h:24-27 | the session is the ten header bytes 0 to 9, padding kept |
| MoldUdp64.DownstreamPacketHeader.GetSequenceNumber | moldudp64_protocol.h:28-31 | the sequence number is the value whose big-endian encoding is bytes 10 to 17 |
| MoldUdp64.DownstreamPacketHeader.GetMessageCount | moldudp64_protocol.h:32-35 | the message count is the value whose big-endian encoding is bytes 18 and 19 |
| MoldUdp64.EncodeHeader | moldudp64_protocol.h:19-41 | a 20-byte header exists for every session, sequence number and count, and its getters return them |
| MoldUdp64.HeaderFromGetters | moldudp64_protocol.h:19-41 | a header is determined by what its three getters return |
| Itch.MessageBlock.MessageLenOnWire | itch_protocol.h:24-27 | the message length is the value whose two-byte big-endian encoding is the block's prefix |
| Itch.MessageBlock.GetMessageData | itch_protocol.h:28-31 | the message data is everything after the two-byte prefix |
| Itch.BlockView | itch_protocol.h:18-36 | a block written with a payload reads back a length equal to the payload's, data starting with the payload, and a size equal to the bytes written |
| Itch.WriteField | constants.h:12-24 | every value a field type can hold has bytes of that type's width that read back as the value |
| Itch.WriteReadField | constants.h:12-24 | a field's bytes are determined by the value read from them |
| Itch.ReadWriteFields | itch_protocol.h:10 | in a packed layout, fields written one after the other read back as the values, whatever bytes follow |
| Itch.WriteReadFields | itch_protocol.h:10 | the values read from a packed layout, written again, are exactly the bytes the layout covers |
| Itch.ReadFieldsExtend | itch_protocol.h:10 | reading a layout's fields depends on no byte past the layout |
| Itch.DecodeFields | itch_protocol.h:39-49 | the fields read after the message type byte, encoded again under that byte, are the bytes they were read from |
| Itch.DecodeEncodedFields | itch_protocol.h:39-49 | a message written as a type byte and fields reads back as those fields, whatever follows |
| Itch.ReadFieldsPrefix | itch_protocol.h:340-360 | the fields at the front of a layout are read the same whatever fields the layout declares after them |
| Itch.Layout | constants.h:19-20 | every field of every record type is one constants.h can declare: numeric widths 1, 2, 4 or 8, and text fields longer than one character |
| Itch.RecordOfValues | itch_protocol.h:55-508 | a record's fields cast back to its type give the record |
| Itch.ValuesOfRecord | itch_protocol.h:55-508 | every list of values that fits a type's layout is the field list of the record cast from it |
| Itch.Encode | itch_protocol.h:55-508 | an encoded record occupies its type's size and starts with its type code |
| Itch.EncodeRead | itch_protocol.h:55-508 | a record read from bytes has its declared text widths, and encoding it gives back exactly the bytes it covers |
| Itch.ReadEncoded | itch_protocol.h:55-508 | reading an encoded record gives it back, whatever bytes follow |
| Itch.ReadRecordExtends | itch_protocol.h:55-508 | a record read from the front of some bytes is the same whatever bytes follow it |
| Itch.RecordSizes | itch_protocol.h:55-508 | each record occupies its type byte plus its field widths: 5, 129, 18, 25, 6, 29, 37, 52, 58, 36, 18, 50 and 53 bytes |
| Itch.ExecutedLayoutPrefix | itch_protocol.h:340-360 | the `OrderExecutedWithPrice` layout is the `OrderExecuted` layout followed by a price and two characters, six bytes more |
| Itch.ExecutedPrefix | itch_protocol.h:340-360 | the execution read from an `OrderExecutedWithPrice` message is the one an `OrderExecuted` message with the same bytes after the type byte carries |
| Printf.DecimalText | itch_protocol.h:61-62 | `%u` writes at least one decimal digit, no leading zero, and the digits read back as the value |
| Printf.DecimalUnique | itch_protocol.h:61-62 | a decimal text with no leading zero is the `%u` text of the number it reads as, so `%u` has one text per value |
| Printf.SignedText | itch_protocol.h:185-186 | `%d` writes a minus sign exactly for a negative value, then the `%u` form of its magnitude: at least one digit, no leading zero, reading back as the magnitude |
| Printf.HexText | itch_protocol.h:290-291 | a zero-padded hexadecimal text has exactly its width in upper-case digits, which read back as the value |
| Printf.Hex16Text | itch_protocol.h:290-291 | `%016lX` of a 64-bit value is sixteen upper-case hexadecimal digits, zero-padded, that read back as the value |
| Printf.CString | itch_protocol.h:60-64 | the string built from a `sprintf` buffer is the buffer's longest NUL-free prefix |
| Printf.CStringAppend | itch_protocol.h:60-64 | a NUL-free text in front of more text survives the NUL cut |
| Printf.SplitJoin | itch_protocol.h:61-62 | comma-joined columns that hold no comma split back into the same columns |
| Printf.JoinAppend | itch_protocol.h:365-366 | joining two non-empty column lists puts exactly one comma between their joins |
| ItchText.FormatAgrees | itch_protocol.h:55-508 | each conversion of each record's format matches the type of the field it prints, in declaration order, with the reserved fields of `OrderExecuted` and `Trade` left out |
| ItchText.RecordRenderable | itch_protocol.h:55-508 | every well-formed record's fields can be printed by its format |
| ItchText.UnsignedColumn | itch_protocol.h:290-298 | a `%016lX` column is sixteen upper-case hexadecimal digits and a `%u` or `%lu` column is decimal digits with no leading zero; either reads back as the field's value |
| ItchText.SignedColumn | itch_protocol.h:290-298 | a price column is a minus sign exactly for a negative price, then decimal digits with no leading zero that read back as the price's magnitude |
| ItchText.TextColumn | itch_protocol.h:114-118 | a text column is the trimmed field up to its first NUL |
| ItchText.Printed | itch_protocol.h:326-335 | an omitted field prints no column, every other field exactly one |
| ItchText.ColumnsOfEveryField | itch_protocol.h:55-508 | with no field omitted, column `i` is field `i` through its conversion |
| ItchText.ToString | itch_protocol.h:391-394 | an `OrderReplace` renders as "unused message type" whatever its fields |
| ItchText.RenderCode | itch_protocol.h:61-62 | a rendering starts with its type character, and changing that character changes nothing else |
| ItchText.RenderedCode | itch_protocol.h:39-49 | every record's text other than `OrderReplace`'s starts with its message type code |
| ItchText.CleanRender | itch_protocol.h:58-66 | when no printed column holds a comma or a NUL, the text is the comma join of the type character and the columns, and splits back into them |
| ItchText.RenderedColumns | itch_protocol.h:55-508 | a record's text, with no comma or NUL in a printed column, splits into the type character and one column per printed field in declaration order |
| ItchText.ExecutedText | itch_protocol.h:323-335 | an `OrderExecuted` renders its execution's fields under `E` |
| ItchText.ExecutedExtent | itch_protocol.h:306-335 | the seven printed `OrderExecuted` fields take 37 bytes, and the two reserved fields after them make the record 52 bytes |
| ItchText.ExecutedTextIgnoresReserved | itch_protocol.h:323-335 | two executions that differ only in their reserved fields render the same `OrderExecuted` text |
| ItchText.ExecutedReadsPrinted | itch_protocol.h:306-335 | the seven fields before the reserved ones are read from the first 38 bytes of an `OrderExecuted` message |
| ItchText.TextReadsExtent | itch_protocol.h:55-508 | a record's text depends on no byte past its first `TextExtent` bytes, the bytes its `to_string` reads: the whole record, except only the type byte for `OrderReplace` and the 38 bytes before the reserved fields for `OrderExecuted` |
| ItchText.ExecutedWithPriceText | itch_protocol.h:362-371 | an `OrderExecutedWithPrice` renders as the `OrderExecuted` text of its execution under `C`, then the price, the cross flag and the printable flag |
| ItchText.ExecutedWithPriceRender | itch_protocol.h:362-371 | when no printed field of the record holds a comma or a NUL, that nested text is the same as rendering all the record's fields with one flat format (a NUL side byte, say, cuts the inner text and makes the two differ) |
| Decoder.DispatchMatchesCodes | main.cc:32-103 | the switch picks a record type exactly for the codes of the thirteen record types, and picks the type the code names |
| Decoder.DispatchCodes | main.cc:32-99 | the code of every type except `EndOfSnapshot` dispatches to that type |
| Decoder.Decode | main.cc:23-105 | decoding fails exactly when the message is empty, or has a record type and is shorter than the bytes that type's `to_string` reads |
| Decoder.DecodeExecutedExtent | main.cc:69-73 | an `OrderExecuted` message decodes exactly when the frame holds its first 38 bytes, whether or not its reserved fields are there |
| Decoder.DecodeRecord | main.cc:32-99 | a message of a record type with the bytes its text needs decodes to the text of the record read from them |
| Decoder.DecodeReadsExtent | main.cc:32-99 | two messages of a record type that agree on the bytes its `to_string` reads decode to the same text |
| Decoder.DecodeUnmatched | main.cc:100-103 | an unknown type byte or `G` gives "message type not matched" and reads nothing after the type byte |
| Decoder.DecodeEncoded | main.cc:32-99 | an encoded record decodes to its own text, whatever bytes follow it |
| Decoder.DecodeExtends | main.cc:32-99 | a message that decodes decodes the same whatever bytes follow it |
| Decoder.HeaderPlacement | main.cc:131-136 | the MoldUDP64 header is read at frame offset 42: the session from bytes 42 to 51, the sequence number big-endian from 52 to 59, the count big-endian from 60 and 61, and the first block starts at 62 |
| Decoder.BlockSize | itch_protocol.h:32-36 | a block occupies two bytes plus the big-endian value of its length prefix |
| Decoder.AlignedOffset | main.cc:136-176 | the loop's offset is 62 plus the sizes of the blocks before it, each of at least two bytes |
| Decoder.WalkBlocks | main.cc:162-177 | the loop writes the lines of the block walk from offset 62, one per block in wire order, moving past each block whatever its type; the blocks it moves past, one per line but a final out-of-frame entry, lie end to end from offset 62, each as long as its own length prefix says |
| Decoder.Callback | main.cc:107-178 | the lines written for a frame are those of the frame's specification: envelope checks, control frames, then the block walk |
| Decoder.WalkShape | main.cc:162-177 | a walk writes at most the remaining blocks' lines, all but a final out-of-frame read are messages with consecutive 64-bit sequence numbers, and it falls short only with that out-of-frame entry |
| Decoder.SilentFrames | main.cc:113-126 | a frame gives no line exactly when its EtherType is not IPv4 or its IPv4 protocol is not UDP, and never more than 0xFFFE lines |
| Decoder.FrameMessages | main.cc:131-177 | a data frame gives between one and the announced number of lines, each message with the trimmed session and sequence number `seqNum + k`, and only a read past the frame's end makes it fewer |
| Decoder.ControlFrames | main.cc:144-160 | a count of 0 gives one heartbeat line and 0xFFFF one end-of-session line, each with the header's sequence number, and no byte after the header is read |
| Decoder.DecodesPacket | main.cc:131-177 | a UDP frame whose header announces as many messages as its blocks carry gives one line per message, in order, with the trimmed session, consecutive sequence numbers and each message's decoded text |
| Decoder.ControlLine | main.cc:144-160 | a heartbeat or end-of-session line is its fixed text followed by the decimal sequence number, which reads back as the number |
| Decoder.MessageLine | main.cc:171-175 | when the session holds no comma, a message line splits at its commas into the session, the decimal sequence number and the columns of the decoded text |
| Decoder.RecordLine | main.cc:171-175 | when the session holds no comma and no printed field of the record (other than `OrderReplace`) holds a comma or a NUL, the line splits into the session, the sequence number, the type character and one column per printed field |

## Left out

- Capture input (`main`, `pcap_open_offline`, `pcap_loop` and its limit of 20 frames) is external I/O. The model decodes one frame given as bytes.
- Console output is modelled as a returned sequence of `Output` entries, and `Line` gives the text of each.
- The host's byte order is fixed as little-endian, as the source states in utils.h, and `be16toh`/`htobe64` are modelled as byte reversal.
- The pointer casts, `#pragma pack` and the zero-length `messageData` array are modelled as reads at fixed offsets from a byte sequence.
- Reads past the end of the frame are undefined behaviour in the source. The model stops the frame at the first such read with an `OutOfFrame` entry.
- The 1024-byte `sprintf` buffers are modelled as unbounded text, so buffer overflow is not modelled. The longest rendering, `OrderBookDirectory` with 79 characters of text fields and fifteen numbers, stays well under 1024 characters.
- The `FinancialProduct` and `OptionType` enums are not validated, as in the code: the raw byte is printed.
- Variable IPv4 header length, IP options and VLAN tags are not handled, as in the code, which fixes the payload offset at 42.
- Sequence-gap detection, retransmission and order-book reconstruction are not part of the decoder.
- `Numeric16_t` (constants.h:16) is declared but no record uses it.
- Itch.MessageBlock.GetSize: its own contract states only the bounds 2 and 2 + 0xFFFF. The exact value, two plus the prefix's value, is stated by `Decoder.BlockSize`.

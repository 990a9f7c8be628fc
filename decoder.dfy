/** The frame walk of the capture decoder: the Ethernet and IPv4 checks, the
    MoldUDP64 header, the heartbeat and end-of-session frames, and the walk
    over the length-prefixed ITCH blocks with the type dispatch of each.

    The source reads the frame through pointer casts with no bounds checks.
    Here every read is guarded: a read that would fall past the end of the
    frame ends the frame's output with an `OutOfFrame` entry naming the
    frame offset where the field, header, block or message whose read fails
    starts. */
module Decoder {
  import opened Wrappers
  import opened Utils
  import opened Constants
  import opened Printf
  import opened MoldUdp64
  import opened Itch
  import opened ItchText

  // ---------------------------------------------------------------------
  // decode

  /** `decode`'s switch: the record type it casts a message to. `'G'`
      (`EndOfSnapshot`) and every byte that is not a type code fall to the
      default branch. */
  function Dispatch(b: byte): Option<MessageType>
  {
    match b as char
    case 'T' => Some(MessageType.Seconds)
    case 'R' => Some(MessageType.OrderBookDirectory)
    case 'M' => Some(MessageType.CombinationOrderBookDirectory)
    case 'L' => Some(MessageType.TickSize)
    case 'S' => Some(MessageType.SystemEvent)
    case 'O' => Some(MessageType.OrderBookState)
    case 'A' => Some(MessageType.AddOrder)
    case 'E' => Some(MessageType.OrderExecuted)
    case 'C' => Some(MessageType.OrderExecutedWithPrice)
    case 'U' => Some(MessageType.OrderReplace)
    case 'D' => Some(MessageType.OrderDelete)
    case 'P' => Some(MessageType.TradeMessageIdentifier)
    case 'Z' => Some(MessageType.EquilibriumPriceUpdate)
    case _ => None
  }

  /** The switch handles exactly the type codes other than `EndOfSnapshot`,
      each as the type whose code it is. */
  lemma DispatchMatchesCodes(b: byte)
    ensures Dispatch(b).Some? <==> FromCode(b as char).Some? && FromCode(b as char).value != MessageType.EndOfSnapshot
    ensures Dispatch(b).Some? ==> Dispatch(b) == FromCode(b as char)
  {
  }

  /** Every record type the decoder knows is reached from its own code. */
  lemma DispatchCodes(t: MessageType)
    requires t != MessageType.EndOfSnapshot
    ensures Code(t) as int < 256 && Dispatch(Code(t) as int) == Some(t)
  {
    CodesIdentifyTypes(t);
    DispatchMatchesCodes(Code(t) as int);
  }

  const NotMatched: string := "message type not matched"

  /** `decode` of the message whose bytes start at the front of `data` and
      run to the end of the frame. The type byte is read first; `to_string`
      then reads the record's fields up to its last printed one (none for
      `OrderReplace`, whose text is fixed, and no reserved field for
      `OrderExecuted`). `Err(n)`: the message's text needs `n` bytes and the
      frame ends before that. */
  function Decode(data: seq<byte>): (r: Result<string, nat>)
    ensures r.Err? <==> |data| == 0 || (Dispatch(data[0]).Some? && |data| < TextExtent(Dispatch(data[0]).value))
  {
    if |data| == 0 then Err(1)
    else match Dispatch(data[0])
      case None => Ok(NotMatched)
      case Some(t) =>
        if |data| < TextExtent(t) then Err(TextExtent(t))
        else
          var full := Completed(t, data);
          assert full[0] == data[0];
          DispatchMatchesCodes(data[0]);
          EncodeRead(t, full);
          Ok(ToString(ReadRecord(t, full)))
  }

  /** The bytes a message's text depends on: `Decode` of a message reads its
      first `TextExtent` bytes and no others. */
  lemma DecodeReadsExtent(a: seq<byte>, b: seq<byte>)
    requires |a| > 0 && |b| > 0 && a[0] == b[0] && Dispatch(a[0]).Some?
    requires |a| >= TextExtent(Dispatch(a[0]).value) && |b| >= TextExtent(Dispatch(a[0]).value)
    requires a[..TextExtent(Dispatch(a[0]).value)] == b[..TextExtent(Dispatch(a[0]).value)]
    ensures Decode(a) == Decode(b)
  {
    var t := Dispatch(a[0]).value;
    var n := TextExtent(t);
    DecodeRecord(a);
    DecodeRecord(b);
    CompletedPrefix(t, a, n);
    CompletedPrefix(t, b, n);
    TextReadsExtent(t, Completed(t, a), Completed(t, b));
  }

  /** A record type's message with its text's bytes in the frame decodes to
      the text of the record read from them. */
  lemma DecodeRecord(data: seq<byte>)
    requires |data| > 0 && Dispatch(data[0]).Some? && |data| >= TextExtent(Dispatch(data[0]).value)
    ensures var t := Dispatch(data[0]).value;
            Completed(t, data)[0] == Code(t) as int
            && WellFormed(ReadRecord(t, Completed(t, data)))
            && Decode(data) == Ok(ToString(ReadRecord(t, Completed(t, data))))
  {
    var t := Dispatch(data[0]).value;
    DispatchMatchesCodes(data[0]);
    EncodeRead(t, Completed(t, data));
  }

  /** An `OrderExecuted` message decodes as soon as the frame holds its type
      byte and the 37 bytes of its printed fields; its reserved fields may
      lie past the end of the frame. */
  lemma DecodeExecutedExtent(data: seq<byte>)
    requires |data| > 0 && data[0] == 'E' as int
    ensures Decode(data).Ok? <==> |data| >= 38
  {
    DispatchCodes(MessageType.OrderExecuted);
    ExecutedExtent();
  }

  /** A message whose type byte is not a record type the switch handles,
      `EndOfSnapshot` included, decodes to the fixed text without reading
      anything else. */
  lemma DecodeUnmatched(data: seq<byte>)
    requires |data| > 0
    requires FromCode(data[0] as char).None? || FromCode(data[0] as char).value == MessageType.EndOfSnapshot
    ensures Decode(data) == Ok(NotMatched)
    ensures Decode(data[..1]) == Decode(data)
  {
    DispatchMatchesCodes(data[0]);
  }

  /** A record as a sender encodes it decodes to its own text, whatever
      bytes follow it in the frame. */
  lemma DecodeEncoded(r: Record, rest: seq<byte>)
    requires WellFormed(r)
    ensures Decode(Encode(r) + rest) == Ok(ToString(r))
  {
    var t := TypeOf(r);
    var data := Encode(r) + rest;
    DispatchCodes(t);
    assert data[0] == Code(t) as int;
    ReadEncoded(r, rest);
  }

  /** A message that decodes inside `data` decodes the same way whatever
      follows it: `decode` reads nothing past the record. */
  lemma DecodeExtends(data: seq<byte>, rest: seq<byte>)
    requires Decode(data).Ok?
    ensures Decode(data + rest) == Decode(data)
  {
    assert (data + rest)[0] == data[0];
    var t := Dispatch(data[0]);
    if t.Some? {
      var n := TextExtent(t.value);
      assert (data + rest)[..n] == data[..n];
      DecodeReadsExtent(data, data + rest);
    }
  }

  // ---------------------------------------------------------------------
  // callback

  /** `ETH_P_IP` and `IPPROTO_UDP`. */
  const EtherTypeIpv4: nat := 0x0800
  const IpProtocolUdp: nat := 17
  /** The EtherType's offset in the Ethernet header. */
  const EtherTypeOffset: nat := 12
  /** The IPv4 protocol byte: byte 9 of the IPv4 header. */
  const ProtocolOffset: nat := EthernetHeaderLength + 9
  /** Where the first message block starts. */
  const FirstBlockOffset: nat := UdpHeaderLength + DownstreamPacketHeaderLength

  const Uint64Modulus: nat := 0x1_0000_0000_0000_0000

  /** What the decoder writes for a frame, one entry per line; an
      `OutOfFrame` entry stands for a read past the frame's end. */
  datatype Output =
    | Heartbeat(sequenceNumber: Numeric8)
    | EndOfSession(sequenceNumber: Numeric8)
    | Message(session: string, sequenceNumber: Numeric8, text: string)
    | OutOfFrame(offset: nat)

  /** The line the decoder prints for an entry. */
  function Line(o: Output): (s: string)
    requires !o.OutOfFrame?
  {
    match o
    case Heartbeat(n) => HeartbeatText + DecimalText(n)
    case EndOfSession(n) => EndOfSessionText + DecimalText(n)
    case Message(session, n, text) => session + "," + DecimalText(n) + "," + text
  }

  /** The bytes the message block at `offset` occupies, length prefix
      included. */
  function BlockSizeAt(frame: seq<byte>, offset: nat): nat
    requires offset + 2 <= |frame|
  {
    MessageBlock(frame[offset..]).GetSize()
  }

  /** A block occupies its two-byte big-endian length prefix and as many
      bytes as the prefix says. */
  lemma BlockSize(frame: seq<byte>, offset: nat)
    requires offset + 2 <= |frame|
    ensures BlockSizeAt(frame, offset) == 2 + FromBigEndian(frame[offset..offset + 2])
  {
    assert MessageBlock(frame[offset..]).bytes[..2] == frame[offset..offset + 2];
  }

  /** A message decoder, as `decode` is one: from the bytes that start at a
      message to the text printed for it. */
  type Decoding = seq<byte> -> Result<string, nat>

  /** The lines of blocks `i` to `count - 1`, the block `i` starting at
      `offset`: each block is printed with sequence number `sequenceNumber +
      i` as a 64-bit sum, and the next starts right after it whatever its
      type. */
  function Walk(frame: seq<byte>, decode: Decoding, session: string, sequenceNumber: Numeric8, count: nat, i: nat, offset: nat)
    : seq<Output>
    requires i <= count
    decreases count - i
  {
    if i == count then []
    else if |frame| < offset + 2 then [OutOfFrame(offset)]
    else
      var block := MessageBlock(frame[offset..]);
      match decode(block.GetMessageData())
      case Err(_) => [OutOfFrame(offset + 2)]
      case Ok(text) =>
        [Message(session, (sequenceNumber + i) % Uint64Modulus, text)]
          + Walk(frame, decode, session, sequenceNumber, count, i + 1, offset + block.GetSize())
  }

  /** A block that decodes gives the first line of the walk from it; the
      walk goes on right after the block. */
  lemma WalkUnfolds(frame: seq<byte>, decode: Decoding, session: string, sequenceNumber: Numeric8, count: nat, i: nat,
                    offset: nat, text: string, next: nat)
    requires i < count && offset + 2 <= |frame|
    requires decode(MessageBlock(frame[offset..]).GetMessageData()) == Ok(text)
    requires next == offset + MessageBlock(frame[offset..]).GetSize()
    ensures Walk(frame, decode, session, sequenceNumber, count, i, offset)
         == [Message(session, (sequenceNumber + i) % Uint64Modulus, text)]
            + Walk(frame, decode, session, sequenceNumber, count, i + 1, next)
  {
  }

  /** The header of a frame long enough to hold one. */
  function HeaderOf(frame: seq<byte>): (h: DownstreamPacketHeader)
    requires |frame| >= FirstBlockOffset
    ensures h.Valid()
  {
    DownstreamPacketHeader(frame[UdpHeaderLength..FirstBlockOffset])
  }

  /** Where `callback` finds the MoldUDP64 header: right after the 42 bytes
      of Ethernet, IPv4 and UDP headers, with the session in bytes 42 to 51,
      the sequence number big-endian in bytes 52 to 59, the message count
      big-endian in bytes 60 and 61, and the first message block at 62. */
  lemma HeaderPlacement(frame: seq<byte>)
    requires |frame| >= FirstBlockOffset
    ensures FirstBlockOffset == 62
    ensures forall i :: 0 <= i < SessionLength ==> HeaderOf(frame).GetSession()[i] as int == frame[42 + i]
    ensures ToBigEndian(8, HeaderOf(frame).GetSequenceNumber()) == frame[52..60]
    ensures ToBigEndian(2, HeaderOf(frame).GetMessageCount()) == frame[60..62]
  {
    var h := HeaderOf(frame);
    assert h.bytes[SessionLength..SessionLength + SequenceNumberLength] == frame[52..60];
    assert h.bytes[SessionLength + SequenceNumberLength..] == frame[60..62];
  }

  /** Everything the decoder writes for one captured frame: the
      specification `Callback` is proved against. */
  function FrameOutput(frame: seq<byte>): seq<Output>
  {
    if |frame| < EtherTypeOffset + 2 then [OutOfFrame(EtherTypeOffset)]
    else if FromBigEndian(frame[EtherTypeOffset..EtherTypeOffset + 2]) != EtherTypeIpv4 then []
    else if |frame| <= ProtocolOffset then [OutOfFrame(ProtocolOffset)]
    else if frame[ProtocolOffset] != IpProtocolUdp then []
    else if |frame| < FirstBlockOffset then [OutOfFrame(UdpHeaderLength)]
    else
      var header := HeaderOf(frame);
      var count := header.GetMessageCount();
      if count == 0 then [Heartbeat(header.GetSequenceNumber())]
      else if count == 0xFFFF then [EndOfSession(header.GetSequenceNumber())]
      else Walk(frame, Decode, TrimRight(header.GetSession()), header.GetSequenceNumber(), count, 0, FirstBlockOffset)
  }

  function Sum(sizes: seq<nat>): nat
  {
    if |sizes| == 0 then 0 else Sum(sizes[..|sizes| - 1]) + sizes[|sizes| - 1]
  }

  /** `sizes` are the sizes of the blocks that follow one another from the
      first block offset up to `offset`, each read from its own length
      prefix. */
  predicate Aligned(frame: seq<byte>, sizes: seq<nat>, offset: nat)
  {
    if |sizes| == 0 then offset == FirstBlockOffset
    else
      var size := sizes[|sizes| - 1];
      size <= offset && offset - size + 2 <= |frame| && size == BlockSizeAt(frame, offset - size)
      && Aligned(frame, sizes[..|sizes| - 1], offset - size)
  }

  /** The block after an aligned prefix extends it. */
  lemma AlignedAppend(frame: seq<byte>, sizes: seq<nat>, offset: nat, nextSizes: seq<nat>, nextOffset: nat)
    requires Aligned(frame, sizes, offset) && offset + 2 <= |frame|
    requires nextSizes == sizes + [BlockSizeAt(frame, offset)] && nextOffset == offset + BlockSizeAt(frame, offset)
    ensures Aligned(frame, nextSizes, nextOffset)
    ensures Sum(nextSizes) == Sum(sizes) + BlockSizeAt(frame, offset)
  {
    assert nextSizes[..|sizes|] == sizes;
  }

  /** Aligned blocks end at the first block offset plus the sum of their
      sizes. */
  lemma {:induction false} AlignedOffset(frame: seq<byte>, sizes: seq<nat>, offset: nat)
    requires Aligned(frame, sizes, offset)
    ensures offset == FirstBlockOffset + Sum(sizes)
    ensures forall k :: 0 <= k < |sizes| ==> sizes[k] >= 2
  {
    if |sizes| > 0 {
      var before := sizes[..|sizes| - 1];
      AlignedOffset(frame, before, offset - sizes[|sizes| - 1]);
      assert forall k :: 0 <= k < |before| ==> sizes[k] == before[k];
    }
  }

  /** One step of the walk: a block that decodes gives its line, and the
      walk goes on right after the block, so the lines written so far
      followed by the rest of the walk stay the whole walk. */
  lemma WalkStep(frame: seq<byte>, decode: Decoding, session: string, sequenceNumber: Numeric8, count: nat, i: nat,
                 offset: nat, lines: seq<Output>, whole: seq<Output>, next: nat, nextOffset: nat, nextLines: seq<Output>)
    requires i < count && offset + 2 <= |frame|
    requires lines + Walk(frame, decode, session, sequenceNumber, count, i, offset) == whole
    requires decode(MessageBlock(frame[offset..]).GetMessageData()).Ok?
    requires next == i + 1 && nextOffset == offset + MessageBlock(frame[offset..]).GetSize()
    requires nextLines == lines + [Message(session, (sequenceNumber + i) % Uint64Modulus,
                                           decode(MessageBlock(frame[offset..]).GetMessageData()).value)]
    ensures nextLines + Walk(frame, decode, session, sequenceNumber, count, next, nextOffset) == whole
  {
    var line := nextLines[|lines|];
    assert nextLines == lines + [line];
    AppendAssociates(lines, [line], Walk(frame, decode, session, sequenceNumber, count, next, nextOffset));
  }

  /** The walk stops at a block whose length prefix or message lies past
      the end of the frame. */
  lemma WalkStops(frame: seq<byte>, decode: Decoding, session: string, sequenceNumber: Numeric8, count: nat, i: nat,
                  offset: nat, lines: seq<Output>, whole: seq<Output>)
    requires i < count
    requires lines + Walk(frame, decode, session, sequenceNumber, count, i, offset) == whole
    ensures |frame| < offset + 2 ==> lines + [OutOfFrame(offset)] == whole
    ensures offset + 2 <= |frame| && decode(MessageBlock(frame[offset..]).GetMessageData()).Err?
            ==> lines + [OutOfFrame(offset + 2)] == whole
  {
  }

  /** A frame that passes the envelope checks and is neither a heartbeat
      nor an end of session is walked from the first block. */
  lemma FrameWalks(frame: seq<byte>)
    requires |frame| >= FirstBlockOffset
    requires FromBigEndian(frame[EtherTypeOffset..EtherTypeOffset + 2]) == EtherTypeIpv4
    requires frame[ProtocolOffset] == IpProtocolUdp
    requires HeaderOf(frame).GetMessageCount() != 0 && HeaderOf(frame).GetMessageCount() != 0xFFFF
    ensures FrameOutput(frame)
         == Walk(frame, Decode, TrimRight(HeaderOf(frame).GetSession()), HeaderOf(frame).GetSequenceNumber(),
                 HeaderOf(frame).GetMessageCount(), 0, FirstBlockOffset)
  {
  }

  /** The block loop of `callback`: `count` blocks from the first block
      offset, `offset` moving past each block whatever its type. `sizes`
      are the sizes of the blocks the loop moved past, one per line but a
      final out-of-frame entry, each read from its own length prefix. */
  method WalkBlocks(frame: seq<byte>, decode: Decoding, session: string, sequenceNumber: Numeric8, count: nat)
    returns (lines: seq<Output>, ghost sizes: seq<nat>)
    ensures lines == Walk(frame, decode, session, sequenceNumber, count, 0, FirstBlockOffset)
    ensures |sizes| <= count && |sizes| <= |lines| <= |sizes| + 1
    ensures Aligned(frame, sizes, FirstBlockOffset + Sum(sizes))
  {
    lines, sizes := [], [];
    ghost var whole := Walk(frame, decode, session, sequenceNumber, count, 0, FirstBlockOffset);
    var offset: nat := FirstBlockOffset;
    var i := 0;
    while i < count
      invariant 0 <= i <= count && |sizes| == i == |lines|
      invariant Aligned(frame, sizes, offset) && offset == FirstBlockOffset + Sum(sizes)
      invariant lines + Walk(frame, decode, session, sequenceNumber, count, i, offset) == whole
    {
      WalkStops(frame, decode, session, sequenceNumber, count, i, offset, lines, whole);
      if |frame| < offset + 2 {
        return lines + [OutOfFrame(offset)], sizes;
      }
      var block := MessageBlock(frame[offset..]);
      var decoded := decode(block.GetMessageData());
      if decoded.Err? {
        return lines + [OutOfFrame(offset + 2)], sizes;
      }
      ghost var index, before, at, sizesBefore := i, lines, offset, sizes;
      lines := lines + [Message(session, (sequenceNumber + i) % Uint64Modulus, decoded.value)];
      sizes := sizes + [block.GetSize()];
      offset := offset + block.GetSize();
      i := i + 1;
      WalkStep(frame, decode, session, sequenceNumber, count, index, at, before, whole, i, offset, lines);
      AlignedAppend(frame, sizesBefore, at, sizes, offset);
    }
  }

  /** What a walk over `remaining` blocks can hold: at most one entry per
      block, and at least one; messages of `session` numbered from `first`
      on as 64-bit sums; and one `OutOfFrame` entry at most, which ends the
      walk and is there whenever the walk stops short of its count. */
  predicate WalkShaped(out: seq<Output>, session: string, first: nat, remaining: nat)
  {
    |out| <= remaining
    && (remaining > 0 ==> |out| > 0)
    && (forall k :: 0 <= k < |out| - 1 ==> out[k].Message?)
    && (forall k :: 0 <= k < |out| ==> out[k].Message? || out[k].OutOfFrame?)
    && (forall k :: 0 <= k < |out| && out[k].Message? ==>
          out[k].session == session && out[k].sequenceNumber == (first + k) % Uint64Modulus)
    && (|out| < remaining ==> out[|out| - 1].OutOfFrame?)
  }

  /** A message in front of a walk of that shape gives a walk of that
      shape over one more block. */
  lemma ShapedCons(out: seq<Output>, text: string, rest: seq<Output>, session: string, first: nat, remaining: nat)
    requires remaining > 0 && WalkShaped(rest, session, first + 1, remaining - 1)
    requires out == [Message(session, first % Uint64Modulus, text)] + rest
    ensures WalkShaped(out, session, first, remaining)
  {
    forall k | 1 <= k < |out|
      ensures out[k] == rest[k - 1]
      ensures out[k].Message? ==> out[k].sequenceNumber == (first + k) % Uint64Modulus
    {
      assert first + 1 + (k - 1) == first + k;
    }
  }

  /** A walk that stops at once with a read past the frame's end has that
      shape. */
  lemma ShapedStop(out: seq<Output>, offset: nat, session: string, first: nat, remaining: nat)
    requires remaining > 0 && out == [OutOfFrame(offset)]
    ensures WalkShaped(out, session, first, remaining)
  {
  }

  /** Every walk has that shape, whatever the frame and the decoder: the
      walk from block `i` numbers its messages from `first`, the sequence
      number plus `i`, and has `remaining` blocks left. */
  lemma {:induction false} WalkShape(frame: seq<byte>, decode: Decoding, session: string, sequenceNumber: Numeric8,
                                     count: nat, i: nat, offset: nat, first: nat, remaining: nat)
    requires i <= count && first == sequenceNumber + i && remaining == count - i
    decreases count - i
    ensures WalkShaped(Walk(frame, decode, session, sequenceNumber, count, i, offset), session, first, remaining)
  {
    var out := Walk(frame, decode, session, sequenceNumber, count, i, offset);
    if i == count {
    } else if |frame| < offset + 2 {
      ShapedStop(out, offset, session, first, remaining);
    } else {
      var block := MessageBlock(frame[offset..]);
      var decoded := decode(block.GetMessageData());
      if decoded.Err? {
        ShapedStop(out, offset + 2, session, first, remaining);
      } else {
        var next := offset + block.GetSize();
        WalkShape(frame, decode, session, sequenceNumber, count, i + 1, next, first + 1, remaining - 1);
        WalkUnfolds(frame, decode, session, sequenceNumber, count, i, offset, decoded.value, next);
        ShapedCons(out, decoded.value, Walk(frame, decode, session, sequenceNumber, count, i + 1, next), session,
                   first, remaining);
      }
    }
  }

  /** The frames the decoder writes nothing for: an EtherType other than
      IPv4, or an IPv4 protocol other than UDP. Every other frame gives at
      least one entry and at most one per message the header announces. */
  lemma SilentFrames(frame: seq<byte>)
    ensures FrameOutput(frame) == []
        <==> |frame| >= EtherTypeOffset + 2
             && (FromBigEndian(frame[EtherTypeOffset..EtherTypeOffset + 2]) != EtherTypeIpv4
                 || (|frame| > ProtocolOffset && frame[ProtocolOffset] != IpProtocolUdp))
    ensures |FrameOutput(frame)| < 0xFFFF
  {
    if |frame| >= FirstBlockOffset && FromBigEndian(frame[EtherTypeOffset..EtherTypeOffset + 2]) == EtherTypeIpv4
       && frame[ProtocolOffset] == IpProtocolUdp {
      var header := HeaderOf(frame);
      var count := header.GetMessageCount();
      if count != 0 && count != 0xFFFF {
        WalkShape(frame, Decode, TrimRight(header.GetSession()), header.GetSequenceNumber(), count, 0, FirstBlockOffset,
                  header.GetSequenceNumber(), count);
      }
    }
  }

  /** The messages of a frame carry the header's session without its
      padding and consecutive sequence numbers from the header's; only the
      last entry can be a read past the frame's end, and it is one whenever
      fewer entries than announced are written. */
  lemma FrameMessages(frame: seq<byte>)
    requires |frame| >= FirstBlockOffset
    requires FromBigEndian(frame[EtherTypeOffset..EtherTypeOffset + 2]) == EtherTypeIpv4
    requires frame[ProtocolOffset] == IpProtocolUdp
    requires HeaderOf(frame).GetMessageCount() != 0 && HeaderOf(frame).GetMessageCount() != 0xFFFF
    ensures var out := FrameOutput(frame);
            1 <= |out| <= HeaderOf(frame).GetMessageCount()
            && (forall k :: 0 <= k < |out| - 1 ==> out[k].Message?)
            && (forall k :: 0 <= k < |out| && out[k].Message? ==>
                  out[k].session == TrimRight(HeaderOf(frame).GetSession())
                  && out[k].sequenceNumber == (HeaderOf(frame).GetSequenceNumber() + k) % Uint64Modulus)
            && (|out| < HeaderOf(frame).GetMessageCount() ==> out[|out| - 1].OutOfFrame?)
  {
    var header := HeaderOf(frame);
    FrameWalks(frame);
    WalkShape(frame, Decode, TrimRight(header.GetSession()), header.GetSequenceNumber(), header.GetMessageCount(), 0,
              FirstBlockOffset, header.GetSequenceNumber(), header.GetMessageCount());
  }

  /** Two frames that agree up to the first block offset agree in
      everything the envelope checks and the header read. */
  lemma SameEnvelope(frame: seq<byte>, other: seq<byte>)
    requires |frame| >= FirstBlockOffset && |other| >= FirstBlockOffset
    requires other[..FirstBlockOffset] == frame[..FirstBlockOffset]
    ensures other[EtherTypeOffset..EtherTypeOffset + 2] == frame[EtherTypeOffset..EtherTypeOffset + 2]
    ensures other[ProtocolOffset] == frame[ProtocolOffset]
    ensures HeaderOf(other) == HeaderOf(frame)
  {
    assert other[ProtocolOffset] == other[..FirstBlockOffset][ProtocolOffset];
    assert frame[ProtocolOffset] == frame[..FirstBlockOffset][ProtocolOffset];
    assert other[EtherTypeOffset..EtherTypeOffset + 2] == other[..FirstBlockOffset][EtherTypeOffset..EtherTypeOffset + 2];
    assert frame[EtherTypeOffset..EtherTypeOffset + 2] == frame[..FirstBlockOffset][EtherTypeOffset..EtherTypeOffset + 2];
    assert other[UdpHeaderLength..FirstBlockOffset] == other[..FirstBlockOffset][UdpHeaderLength..];
    assert frame[UdpHeaderLength..FirstBlockOffset] == frame[..FirstBlockOffset][UdpHeaderLength..];
  }

  /** A heartbeat or end-of-session frame gives one line with the header's
      sequence number, and nothing after the header is read. */
  lemma ControlFrames(frame: seq<byte>, rest: seq<byte>)
    requires |frame| >= FirstBlockOffset
    requires FromBigEndian(frame[EtherTypeOffset..EtherTypeOffset + 2]) == EtherTypeIpv4
    requires frame[ProtocolOffset] == IpProtocolUdp
    requires HeaderOf(frame).GetMessageCount() == 0 || HeaderOf(frame).GetMessageCount() == 0xFFFF
    ensures HeaderOf(frame).GetMessageCount() == 0 ==> FrameOutput(frame) == [Heartbeat(HeaderOf(frame).GetSequenceNumber())]
    ensures HeaderOf(frame).GetMessageCount() == 0xFFFF
            ==> FrameOutput(frame) == [EndOfSession(HeaderOf(frame).GetSequenceNumber())]
    ensures FrameOutput(frame[..FirstBlockOffset] + rest) == FrameOutput(frame)
  {
    var other := frame[..FirstBlockOffset] + rest;
    SameEnvelope(frame, other);
    ControlOutput(frame);
    ControlOutput(other);
  }

  /** The one line of a frame whose header announces 0 or 0xFFFF
      messages. */
  lemma ControlOutput(frame: seq<byte>)
    requires |frame| >= FirstBlockOffset
    requires FromBigEndian(frame[EtherTypeOffset..EtherTypeOffset + 2]) == EtherTypeIpv4
    requires frame[ProtocolOffset] == IpProtocolUdp
    requires HeaderOf(frame).GetMessageCount() == 0 || HeaderOf(frame).GetMessageCount() == 0xFFFF
    ensures FrameOutput(frame)
         == [if HeaderOf(frame).GetMessageCount() == 0 then Heartbeat(HeaderOf(frame).GetSequenceNumber())
             else EndOfSession(HeaderOf(frame).GetSequenceNumber())]
  {
  }

  // ---------------------------------------------------------------------
  // A packet as a sender writes it

  /** Blocks carrying `payloads`, one after the other. */
  function EncodeBlocks(payloads: seq<seq<byte>>): (b: seq<byte>)
    requires forall k :: 0 <= k < |payloads| ==> |payloads[k]| <= 0xFFFF
    ensures |b| >= 2 * |payloads|
  {
    if |payloads| == 0 then [] else EncodeBlock(payloads[0]) + EncodeBlocks(payloads[1..])
  }

  /** The texts `decode` gives for `payloads`. */
  function Decoded(payloads: seq<seq<byte>>): (texts: seq<string>)
    requires forall k :: 0 <= k < |payloads| ==> Decode(payloads[k]).Ok?
    ensures |texts| == |payloads|
    ensures forall k :: 0 <= k < |payloads| ==> Decode(payloads[k]) == Ok(texts[k])
  {
    seq(|payloads|, k requires 0 <= k < |payloads| => Decode(payloads[k]).value)
  }

  /** Message lines for `texts`, numbered from `first` on. */
  function Messages(session: string, first: nat, texts: seq<string>): (out: seq<Output>)
    ensures |out| == |texts|
    decreases |texts|
  {
    if |texts| == 0 then [] else [Message(session, first % Uint64Modulus, texts[0])] + Messages(session, first + 1, texts[1..])
  }

  /** The first message line, then the lines of the other texts. */
  lemma MessagesUnfold(session: string, first: nat, second: nat, texts: seq<string>)
    requires |texts| > 0 && second == first + 1
    ensures Messages(session, first, texts)
         == [Message(session, first % Uint64Modulus, texts[0])] + Messages(session, second, texts[1..])
  {
  }

  /** The `k`-th message line carries the `k`-th text and number `first +
      k` as a 64-bit sum. */
  lemma {:induction false} MessagesAt(session: string, first: nat, texts: seq<string>)
    decreases |texts|
    ensures forall k :: 0 <= k < |texts| ==>
              Messages(session, first, texts)[k] == Message(session, (first + k) % Uint64Modulus, texts[k])
  {
    if |texts| > 0 {
      MessagesAt(session, first + 1, texts[1..]);
      var out := Messages(session, first, texts);
      forall k | 1 <= k < |texts|
        ensures out[k] == Message(session, (first + k) % Uint64Modulus, texts[k])
      {
        assert out[k] == Messages(session, first + 1, texts[1..])[k - 1];
        assert first + 1 + (k - 1) == first + k;
      }
    }
  }

  /** Walking encoded blocks gives each payload's text in order, numbered
      on from the walk's first sequence number `first`, whatever follows the
      blocks, when the decoder reads each payload to its text whatever
      follows it. */
  lemma {:induction false} WalkEncoded(frame: seq<byte>, decode: Decoding, session: string, sequenceNumber: Numeric8,
                                       count: nat, i: nat, first: nat, offset: nat, payloads: seq<seq<byte>>,
                                       texts: seq<string>, trailer: seq<byte>)
    requires i <= count && count - i == |payloads| == |texts| && first == sequenceNumber + i
    requires forall k :: 0 <= k < |payloads| ==> |payloads[k]| <= 0xFFFF
    requires forall k, more :: 0 <= k < |payloads| ==> decode(payloads[k] + more) == Ok(texts[k])
    requires offset <= |frame| && frame[offset..] == EncodeBlocks(payloads) + trailer
    decreases count - i
    ensures Walk(frame, decode, session, sequenceNumber, count, i, offset) == Messages(session, first, texts)
  {
    if i < count {
      var payload := payloads[0];
      var more := EncodeBlocks(payloads[1..]) + trailer;
      assert frame[offset..] == EncodeBlock(payload) + more;
      BlockView(payload, more);
      var block := MessageBlock(frame[offset..]);
      assert decode(block.GetMessageData()) == Ok(texts[0]);
      var next := offset + block.GetSize();
      assert frame[next..] == more by {
        assert frame[next..] == frame[offset..][block.GetSize()..];
      }
      assert forall k, more :: 0 <= k < |payloads| - 1 ==> decode(payloads[1..][k] + more) == Ok(texts[1..][k]) by {
        assert forall k :: 0 <= k < |payloads| - 1 ==> payloads[1..][k] == payloads[k + 1] && texts[1..][k] == texts[k + 1];
      }
      WalkEncoded(frame, decode, session, sequenceNumber, count, i + 1, first + 1, next, payloads[1..], texts[1..], trailer);
      WalkUnfolds(frame, decode, session, sequenceNumber, count, i, offset, texts[0], next);
      MessagesUnfold(session, first, first + 1, texts);
    }
  }

  /** A frame made of an Ethernet, IPv4 and UDP envelope that names IPv4
      and UDP, then a MoldUDP64 header, then the blocks: it passes the
      envelope checks and its header is read back as written. */
  lemma PacketEnvelope(frame: seq<byte>, envelope: seq<byte>, header: DownstreamPacketHeader, blocks: seq<byte>)
    requires |envelope| == UdpHeaderLength && header.Valid()
    requires envelope[EtherTypeOffset] == 0x08 && envelope[EtherTypeOffset + 1] == 0x00
    requires envelope[ProtocolOffset] == IpProtocolUdp
    requires frame == envelope + header.bytes + blocks
    ensures |frame| >= FirstBlockOffset
    ensures FromBigEndian(frame[EtherTypeOffset..EtherTypeOffset + 2]) == EtherTypeIpv4
    ensures frame[ProtocolOffset] == IpProtocolUdp
    ensures HeaderOf(frame) == header && frame[FirstBlockOffset..] == blocks
  {
    assert frame[EtherTypeOffset..EtherTypeOffset + 2] == [0x08, 0x00];
    assert [0x08, 0x00][..1] == [0x08];
    assert frame[UdpHeaderLength..FirstBlockOffset] == header.bytes;
  }

  /** A UDP frame whose MoldUDP64 header announces as many messages as the
      blocks that follow carry, each of them one `decode` reads to the
      end: the decoder prints one line per message, with the session
      without its padding and the header's sequence number counted up. */
  lemma DecodesPacket(envelope: seq<byte>, session: seq<Char>, sequenceNumber: Numeric8, payloads: seq<seq<byte>>,
                      trailer: seq<byte>)
    requires |envelope| == UdpHeaderLength
    requires envelope[EtherTypeOffset] == 0x08 && envelope[EtherTypeOffset + 1] == 0x00
    requires envelope[ProtocolOffset] == IpProtocolUdp
    requires |session| == SessionLength
    requires 1 <= |payloads| < 0xFFFF
    requires forall k :: 0 <= k < |payloads| ==> |payloads[k]| <= 0xFFFF && Decode(payloads[k]).Ok?
    ensures FrameOutput(envelope + EncodeHeader(session, sequenceNumber, |payloads|).bytes + (EncodeBlocks(payloads) + trailer))
         == Messages(TrimRight(session), sequenceNumber, Decoded(payloads))
  {
    var header := EncodeHeader(session, sequenceNumber, |payloads|);
    var blocks := EncodeBlocks(payloads) + trailer;
    var frame := envelope + header.bytes + blocks;
    PacketEnvelope(frame, envelope, header, blocks);
    FrameWalks(frame);
    var texts := Decoded(payloads);
    forall k, more | 0 <= k < |payloads|
      ensures Decode(payloads[k] + more) == Ok(texts[k])
    {
      DecodeExtends(payloads[k], more);
    }
    WalkEncoded(frame, Decode, TrimRight(session), sequenceNumber, |payloads|, 0, sequenceNumber, FirstBlockOffset, payloads,
                texts, trailer);
  }

  // ---------------------------------------------------------------------
  // Lines

  const HeartbeatText: string := "heartbeat, next expected sequence number: "
  const EndOfSessionText: string := "end of session, next expected sequence number: "

  /** `callback` for one frame: the envelope checks, the header, the
      control frames, then the block loop with `decode`. */
  method Callback(frame: seq<byte>) returns (lines: seq<Output>)
    ensures lines == FrameOutput(frame)
  {
    if |frame| < EtherTypeOffset + 2 {
      return [OutOfFrame(EtherTypeOffset)];
    }
    if FromBigEndian(frame[EtherTypeOffset..EtherTypeOffset + 2]) != EtherTypeIpv4 {
      return [];
    }
    if |frame| <= ProtocolOffset {
      return [OutOfFrame(ProtocolOffset)];
    }
    if frame[ProtocolOffset] != IpProtocolUdp {
      return [];
    }
    if |frame| < FirstBlockOffset {
      return [OutOfFrame(UdpHeaderLength)];
    }
    var header := HeaderOf(frame);
    var session := header.GetSession();
    var sequenceNumber := header.GetSequenceNumber();
    var count := header.GetMessageCount();
    if count == 0 {
      return [Heartbeat(sequenceNumber)];
    }
    if count == 0xFFFF {
      return [EndOfSession(sequenceNumber)];
    }
    var trimmed := AlphaToString(session);
    FrameWalks(frame);
    ghost var sizes;
    lines, sizes := WalkBlocks(frame, Decode, trimmed, sequenceNumber, count);
  }

  /** A heartbeat or end-of-session line is its fixed text followed by the
      sequence number in decimal, which reads back as the number. */
  lemma ControlLine(o: Output)
    requires o.Heartbeat? || o.EndOfSession?
    ensures var prefix := if o.Heartbeat? then HeartbeatText else EndOfSessionText;
            |prefix| < |Line(o)| && Line(o)[..|prefix|] == prefix
            && ParseBase(10, Line(o)[|prefix|..]) == o.sequenceNumber
  {
    var prefix := if o.Heartbeat? then HeartbeatText else EndOfSessionText;
    assert Line(o) == prefix + DecimalText(o.sequenceNumber);
    assert Line(o)[|prefix|..] == DecimalText(o.sequenceNumber);
  }

  /** A message line whose session holds no comma splits at its commas into
      the session, the sequence number in decimal and the columns of the
      message's text. */
  lemma MessageLine(session: string, sequenceNumber: Numeric8, text: string)
    requires forall j :: 0 <= j < |session| ==> session[j] != ','
    ensures Split(Line(Message(session, sequenceNumber, text))) == [session, DecimalText(sequenceNumber)] + Split(text)
  {
    var number := DecimalText(sequenceNumber);
    assert Line(Message(session, sequenceNumber, text)) == session + "," + (number + "," + text);
    SplitColumn(session, number + "," + text);
    SplitColumn(number, text);
  }

  /** The line of a decoded record, split at its commas: the session, the
      sequence number, the record's type character and one column per
      printed field, when no printed text holds a comma or a NUL. */
  lemma RecordLine(session: string, sequenceNumber: Numeric8, r: Record)
    requires forall j :: 0 <= j < |session| ==> session[j] != ','
    requires WellFormed(r) && !r.OrderReplace? && Clean(Format(TypeOf(r)), Values(r))
    ensures Renderable(Format(TypeOf(r)), Values(r))
    ensures Split(Line(Message(session, sequenceNumber, ToString(r))))
         == [session, DecimalText(sequenceNumber)] + ([[Code(TypeOf(r))]] + Columns(Format(TypeOf(r)), Values(r)))
  {
    RenderedColumns(r);
    MessageLine(session, sequenceNumber, ToString(r));
  }
}

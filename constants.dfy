/** Wire widths, transport offsets and message-type codes of the XSES ITCH
    feed carried over MoldUDP64. */
module Constants {
  import opened Wrappers
  import opened Utils

  // ITCH data types. Each numeric type is an unsigned integer of 1, 2, 4 or
  // 8 bytes; a price is a signed 32-bit integer; a date an unsigned 32-bit one.
  type Numeric1 = x: nat | x < 0x100
  type Numeric2 = x: nat | x < 0x1_0000
  type Numeric4 = x: nat | x < 0x1_0000_0000
  type Numeric8 = x: nat | x < 0x1_0000_0000_0000_0000
  type Price = x: int | -0x8000_0000 <= x < 0x8000_0000
  type Date = x: nat | x < 0x1_0000_0000
  /** A one-character field: a C `char`, one byte on the wire. */
  type Char = c: char | c as int < 0x100

  /** The layout vocabulary of a packed record: one entry per field. */
  datatype DataType =
    | NumericField(width: nat)
    | PriceField
    | DateField
    | CharField
    | AlphaField(size: nat)  // `Alpha_t<size>`, right-padded with spaces

  /** A field type that constants.h can declare: numeric widths 1, 2, 4, 8,
      and text fields of more than one character (a one-character field is a
      plain `char`). */
  predicate Declarable(d: DataType)
  {
    match d
    case NumericField(w) => w == 1 || w == 2 || w == 4 || w == 8
    case AlphaField(n) => n > 1
    case _ => true
  }

  /** Bytes a field of type `d` occupies on the wire. */
  function Width(d: DataType): nat
  {
    match d
    case NumericField(w) => w
    case PriceField => 4
    case DateField => 4
    case CharField => 1
    case AlphaField(n) => n
  }

  /** `Price_t` read from the wire: the 32-bit pattern as two's complement. */
  function ToPrice(bits: nat): (p: Price)
    requires bits < 0x1_0000_0000
    ensures p >= 0 <==> bits < 0x8000_0000
    ensures p % 0x1_0000_0000 == bits
  {
    if bits < 0x8000_0000 then bits else bits - 0x1_0000_0000
  }

  /** The 32-bit pattern that carries a `Price_t`. */
  function PriceBits(p: Price): (bits: nat)
    ensures bits < 0x1_0000_0000
    ensures ToPrice(bits) == p
  {
    if p >= 0 then p else p + 0x1_0000_0000
  }

  // Transport: Ethernet (14 bytes), IPv4 without options (20), UDP (8).
  const EthernetHeaderLength: nat := 14
  const Ipv4HeaderLength: nat := 20
  const UdpLength: nat := 8
  /** `UDP_HEADER_LENGTH`: the frame offset at which the UDP payload starts. */
  const UdpHeaderLength: nat := 42

  // MoldUDP64 downstream packet header.
  const SessionLength: nat := 10
  const SequenceNumberLength: nat := 8
  const MessageCountLength: nat := 2
  const DownstreamPacketHeaderLength: nat := SessionLength + SequenceNumberLength + MessageCountLength

  /** `MessageType`: the first byte of every ITCH message. */
  datatype MessageType =
    | AddOrder
    | OrderExecutedWithPrice
    | OrderDelete
    | OrderExecuted
    | EndOfSnapshot
    | TickSize
    | CombinationOrderBookDirectory
    | OrderBookState
    | TradeMessageIdentifier
    | OrderBookDirectory
    | SystemEvent
    | Seconds
    | OrderReplace
    | EquilibriumPriceUpdate

  function Code(t: MessageType): char
  {
    match t
    case AddOrder => 'A'
    case OrderExecutedWithPrice => 'C'
    case OrderDelete => 'D'
    case OrderExecuted => 'E'
    case EndOfSnapshot => 'G'
    case TickSize => 'L'
    case CombinationOrderBookDirectory => 'M'
    case OrderBookState => 'O'
    case TradeMessageIdentifier => 'P'
    case OrderBookDirectory => 'R'
    case SystemEvent => 'S'
    case Seconds => 'T'
    case OrderReplace => 'U'
    case EquilibriumPriceUpdate => 'Z'
  }

  /** The `MessageType` whose code is `c`, if there is one. */
  function FromCode(c: char): (r: Option<MessageType>)
    ensures r.Some? ==> Code(r.value) == c
    ensures r.None? ==> forall t :: Code(t) != c
  {
    match c
    case 'A' => Some(AddOrder)
    case 'C' => Some(OrderExecutedWithPrice)
    case 'D' => Some(OrderDelete)
    case 'E' => Some(OrderExecuted)
    case 'G' => Some(EndOfSnapshot)
    case 'L' => Some(TickSize)
    case 'M' => Some(CombinationOrderBookDirectory)
    case 'O' => Some(OrderBookState)
    case 'P' => Some(TradeMessageIdentifier)
    case 'R' => Some(OrderBookDirectory)
    case 'S' => Some(SystemEvent)
    case 'T' => Some(Seconds)
    case 'U' => Some(OrderReplace)
    case 'Z' => Some(EquilibriumPriceUpdate)
    case _ => None
  }

  /** The fourteen codes are distinct one-byte ASCII letters, so a code names
      exactly one message type. */
  lemma CodesIdentifyTypes(t: MessageType)
    ensures FromCode(Code(t)) == Some(t)
    ensures 'A' <= Code(t) <= 'Z'
  {
  }

  lemma CodeSet()
    ensures (set t: MessageType | true :: Code(t)) == {'A', 'C', 'D', 'E', 'G', 'L', 'M', 'O', 'P', 'R', 'S', 'T', 'U', 'Z'}
  {
    var codes := set t: MessageType | true :: Code(t);
    assert Code(AddOrder) in codes && Code(OrderExecutedWithPrice) in codes && Code(OrderDelete) in codes;
    assert Code(OrderExecuted) in codes && Code(EndOfSnapshot) in codes && Code(TickSize) in codes;
    assert Code(CombinationOrderBookDirectory) in codes && Code(OrderBookState) in codes;
    assert Code(TradeMessageIdentifier) in codes && Code(OrderBookDirectory) in codes;
    assert Code(SystemEvent) in codes && Code(Seconds) in codes && Code(OrderReplace) in codes;
    assert Code(EquilibriumPriceUpdate) in codes;
  }
}

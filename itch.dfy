/** The ITCH layer: the length-prefixed message block, the packed record
    layouts of the XSES ITCH feed (sections 3.3.2 to 3.3.7 of its
    specification) and each record's comma-joined rendering.

    A record is read at fixed offsets from the bytes that follow its message
    type: its layout lists its fields in declaration order, and a field of
    type `d` occupies `Width(d)` bytes with no padding. */
module Itch {
  import opened Wrappers
  import opened Utils
  import opened Constants
  import opened Printf

  /** `MessageBlock`: a view from a block's length prefix to the end of the
      frame that holds it. */
  datatype MessageBlock = MessageBlock(bytes: seq<byte>)
  {
    predicate Valid()
    {
      |bytes| >= 2
    }

    /** `get_message_len`: the big-endian prefix of two bytes. */
    function GetMessageLen(): Numeric2
      requires Valid()
    {
      Pow256Widths();
      FromBigEndian(bytes[..2])
    }

    /** The length is the one value whose two-byte big-endian encoding is
        the prefix. */
    lemma MessageLenOnWire()
      requires Valid()
      ensures ToBigEndian(2, GetMessageLen()) == bytes[..2]
    {
      Pow256Widths();
      BigEndianUnique(bytes[..2]);
    }

    /** `get_message_data`: everything after the prefix. */
    function GetMessageData(): (data: seq<byte>)
      requires Valid()
      ensures bytes == bytes[..2] + data
    {
      bytes[2..]
    }

    /** `get_size`: the bytes the block occupies, prefix included. */
    function GetSize(): (n: nat)
      requires Valid()
      ensures 2 <= n <= 2 + 0xFFFF
    {
      2 + GetMessageLen()
    }
  }

  /** A block carrying `payload`, as a sender writes it. */
  function EncodeBlock(payload: seq<byte>): (b: seq<byte>)
    requires |payload| <= 0xFFFF
    ensures |b| == 2 + |payload|
  {
    Pow256Widths();
    ToBigEndian(2, |payload|) + payload
  }

  /** The view of an encoded block has the payload's length, starts its data
      with the payload and spans exactly the encoded bytes. */
  lemma BlockView(payload: seq<byte>, rest: seq<byte>)
    requires |payload| <= 0xFFFF
    ensures MessageBlock(EncodeBlock(payload) + rest).Valid()
    ensures MessageBlock(EncodeBlock(payload) + rest).GetMessageLen() == |payload|
    ensures MessageBlock(EncodeBlock(payload) + rest).GetMessageData() == payload + rest
    ensures MessageBlock(EncodeBlock(payload) + rest).GetSize() == |EncodeBlock(payload)|
  {
    Pow256Widths();
    var block := MessageBlock(EncodeBlock(payload) + rest);
    assert block.bytes[..2] == ToBigEndian(2, |payload|);
    assert block.bytes[2..] == payload + rest;
  }

  // ---------------------------------------------------------------------
  // Fields

  /** A decoded field value. */
  datatype Value =
    | UnsignedValue(n: nat)
    | SignedValue(i: int)
    | CharValue(c: Char)
    | TextValue(s: seq<Char>)

  /** `v` is a value that a field of type `d` can hold. */
  predicate Fits(d: DataType, v: Value)
  {
    match d
    case NumericField(w) => v.UnsignedValue? && v.n < Pow256(w)
    case PriceField => v.SignedValue? && -0x8000_0000 <= v.i < 0x8000_0000
    case DateField => v.UnsignedValue? && v.n < 0x1_0000_0000
    case CharField => v.CharValue?
    case AlphaField(n) => v.TextValue? && |v.s| == n
  }

  /** Reads one field from exactly its bytes. */
  function ReadField(d: DataType, b: seq<byte>): (v: Value)
    requires |b| == Width(d)
    ensures Fits(d, v)
  {
    Pow256Widths();
    match d
    case NumericField(_) => UnsignedValue(FromBigEndian(b))
    case PriceField => SignedValue(ToPrice(FromBigEndian(b)))
    case DateField => UnsignedValue(FromBigEndian(b))
    case CharField => CharValue(b[0] as char)
    case AlphaField(n) => TextValue(seq(n, j requires 0 <= j < n => b[j] as char))
  }

  /** The bytes that carry `v` in a field of type `d`. */
  function WriteField(d: DataType, v: Value): (b: seq<byte>)
    requires Fits(d, v)
    ensures |b| == Width(d)
    ensures ReadField(d, b) == v
  {
    Pow256Widths();
    match d
    case NumericField(w) => ToBigEndian(w, v.n)
    case PriceField => ToBigEndian(4, PriceBits(v.i))
    case DateField => ToBigEndian(4, v.n)
    case CharField => [v.c as int]
    case AlphaField(n) =>
      var b := seq(n, j requires 0 <= j < n => v.s[j] as int);
      assert ReadField(d, b).s == v.s;
      b
  }

  /** A field's bytes are determined by the value read from them. */
  lemma WriteReadField(d: DataType, b: seq<byte>)
    requires |b| == Width(d)
    ensures WriteField(d, ReadField(d, b)) == b
  {
    Pow256Widths();
    match d
    case NumericField(w) => BigEndianUnique(b);
    case PriceField => BigEndianUnique(b);
    case DateField => BigEndianUnique(b);
    case CharField =>
    case AlphaField(n) =>
  }

  /** Bytes a layout occupies: the sum of its field widths. */
  function Size(layout: seq<DataType>): nat
  {
    if |layout| == 0 then 0 else Width(layout[0]) + Size(layout[1..])
  }

  lemma {:induction false} SizeAppend(a: seq<DataType>, b: seq<DataType>)
    ensures Size(a + b) == Size(a) + Size(b)
  {
    if |a| > 0 {
      assert (a + b)[0] == a[0] && (a + b)[1..] == a[1..] + b;
      SizeAppend(a[1..], b);
    } else {
      assert a + b == b;
    }
  }

  /** Where field `i` of `layout` starts, counted from the first field: the
      widths of the fields before it, as a packed struct places them. */
  function Offset(layout: seq<DataType>, i: nat): nat
    requires i <= |layout|
  {
    if i == 0 then 0 else Offset(layout, i - 1) + Width(layout[i - 1])
  }

  /** The last offset is the size of the layout. */
  lemma {:induction false} SizeIsLastOffset(layout: seq<DataType>)
    ensures Size(layout) == Offset(layout, |layout|)
  {
    if |layout| > 0 {
      forall i | 0 <= i <= |layout| - 1
        ensures Offset(layout, i + 1) == Width(layout[0]) + Offset(layout[1..], i)
      {
        OffsetOfTail(layout, i);
      }
      SizeIsLastOffset(layout[1..]);
    }
  }

  lemma {:induction false} OffsetOfTail(layout: seq<DataType>, i: nat)
    requires 0 < |layout| && i < |layout|
    ensures Offset(layout, i + 1) == Width(layout[0]) + Offset(layout[1..], i)
  {
    if i > 0 {
      OffsetOfTail(layout, i - 1);
    }
  }

  /** `vs` holds one fitting value per field of `layout`. */
  predicate Conforms(layout: seq<DataType>, vs: seq<Value>)
  {
    |vs| == |layout| && forall i :: 0 <= i < |layout| ==> Fits(layout[i], vs[i])
  }

  /** Reads the fields of `layout` one after the other from the front of `b`. */
  function ReadFields(layout: seq<DataType>, b: seq<byte>): (vs: seq<Value>)
    requires |b| >= Size(layout)
    ensures Conforms(layout, vs)
  {
    if |layout| == 0 then []
    else
      var w := Width(layout[0]);
      [ReadField(layout[0], b[..w])] + ReadFields(layout[1..], b[w..])
  }

  function WriteFields(layout: seq<DataType>, vs: seq<Value>): (b: seq<byte>)
    requires Conforms(layout, vs)
    ensures |b| == Size(layout)
  {
    if |layout| == 0 then []
    else
      assert Conforms(layout[1..], vs[1..]) by {
        forall i | 0 <= i < |layout| - 1 ensures Fits(layout[1..][i], vs[1..][i]) {
          assert Fits(layout[i + 1], vs[i + 1]);
        }
      }
      WriteField(layout[0], vs[0]) + WriteFields(layout[1..], vs[1..])
  }

  /** Reading back written fields gives the values, whatever follows them. */
  lemma {:induction false} ReadWriteFields(layout: seq<DataType>, vs: seq<Value>, rest: seq<byte>)
    requires Conforms(layout, vs)
    ensures ReadFields(layout, WriteFields(layout, vs) + rest) == vs
  {
    if |layout| > 0 {
      var head := WriteField(layout[0], vs[0]);
      var tail := WriteFields(layout[1..], vs[1..]);
      var b := WriteFields(layout, vs) + rest;
      assert b == head + (tail + rest);
      assert b[..|head|] == head;
      assert b[|head|..] == tail + rest;
      ReadWriteFields(layout[1..], vs[1..], rest);
    }
  }

  /** Reading fields stops at their end: bytes after them change nothing. */
  lemma {:induction false} ReadFieldsExtend(layout: seq<DataType>, b: seq<byte>, rest: seq<byte>)
    requires |b| >= Size(layout)
    ensures ReadFields(layout, b + rest) == ReadFields(layout, b)
  {
    if |layout| > 0 {
      var w := Width(layout[0]);
      assert (b + rest)[..w] == b[..w] && (b + rest)[w..] == b[w..] + rest;
      ReadFieldsExtend(layout[1..], b[w..], rest);
    }
  }

  /** Writing the values read from `b` gives back the bytes they came from. */
  lemma {:induction false} WriteReadFields(layout: seq<DataType>, b: seq<byte>)
    requires |b| >= Size(layout)
    ensures WriteFields(layout, ReadFields(layout, b)) == b[..Size(layout)]
  {
    if |layout| > 0 {
      var w := Width(layout[0]);
      var head := ReadField(layout[0], b[..w]);
      var tail := ReadFields(layout[1..], b[w..]);
      var vs := [head] + tail;
      assert ReadFields(layout, b) == vs;
      assert vs[0] == head && vs[1..] == tail;
      WriteReadField(layout[0], b[..w]);
      WriteReadFields(layout[1..], b[w..]);
      assert WriteFields(layout, vs) == b[..w] + b[w..][..Size(layout[1..])];
      assert b[..Size(layout)] == b[..w] + b[w..][..Size(layout[1..])];
    }
  }

  /** A message with one type byte in front of the fields of `layout`. */
  function EncodeFields(code: byte, layout: seq<DataType>, vs: seq<Value>): (b: seq<byte>)
    requires Conforms(layout, vs)
    ensures |b| == 1 + Size(layout) && b[0] == code
  {
    [code] + WriteFields(layout, vs)
  }

  /** The fields of `layout` read after the type byte at the front of
      `data`; encoding them again gives the bytes they were read from. */
  function DecodeFields(layout: seq<DataType>, data: seq<byte>): (vs: seq<Value>)
    requires |data| >= 1 + Size(layout)
    ensures Conforms(layout, vs)
    ensures EncodeFields(data[0], layout, vs) == data[..1 + Size(layout)]
  {
    WriteReadFields(layout, data[1..]);
    assert data[..1 + Size(layout)] == [data[0]] + data[1..][..Size(layout)];
    ReadFields(layout, data[1..])
  }

  /** Decoding an encoded message gives its fields back, whatever follows. */
  lemma DecodeEncodedFields(code: byte, layout: seq<DataType>, vs: seq<Value>, rest: seq<byte>)
    requires Conforms(layout, vs)
    ensures DecodeFields(layout, EncodeFields(code, layout, vs) + rest) == vs
  {
    var data := EncodeFields(code, layout, vs) + rest;
    assert data[1..] == WriteFields(layout, vs) + rest;
    ReadWriteFields(layout, vs, rest);
  }

  /** The fields of a layout's prefix are read the same way whatever fields
      the layout declares after them. */
  /** A layout's fields are read from its size of bytes alone. */
  lemma ReadFieldsTake(layout: seq<DataType>, b: seq<byte>)
    requires |b| >= Size(layout)
    ensures ReadFields(layout, b) == ReadFields(layout, b[..Size(layout)])
  {
    var n := Size(layout);
    assert b == b[..n] + b[n..];
    ReadFieldsExtend(layout, b[..n], b[n..]);
  }

  lemma {:induction false} ReadFieldsPrefix(a: seq<DataType>, c: seq<DataType>, b: seq<byte>)
    requires |b| >= Size(a + c)
    ensures Size(a) <= |b|
    ensures ReadFields(a + c, b)[..|a|] == ReadFields(a, b)
  {
    SizeAppend(a, c);
    if |a| > 0 {
      var w := Width(a[0]);
      var head := ReadField(a[0], b[..w]);
      assert Size(a[1..] + c) == Size(a + c) - w by {
        assert (a + c)[0] == a[0] && (a + c)[1..] == a[1..] + c;
      }
      var whole := ReadFields(a[1..] + c, b[w..]);
      assert ReadFields(a + c, b) == [head] + whole by {
        assert (a + c)[0] == a[0] && (a + c)[1..] == a[1..] + c;
      }
      ReadFieldsPrefix(a[1..], c, b[w..]);
      assert ([head] + whole)[..|a|] == [head] + whole[..|a| - 1];
    }
  }

  // ---------------------------------------------------------------------
  // Records

  /** The fields `OrderExecuted` declares, which `OrderExecutedWithPrice`
      extends. */
  datatype Execution = Execution(
    timestampNanoseconds: Numeric4,
    orderId: Numeric8,
    orderBookId: Numeric4,
    side: Char,
    executedQuantity: Numeric8,
    matchId: Numeric8,
    comboGroupId: Numeric4,
    reserved1: seq<Char>,
    reserved2: seq<Char>)

  /** One record per ITCH message type the decoder handles; the message type
      byte is implied by the variant. */
  datatype Record =
    | Seconds(second: Numeric4)
    | OrderBookDirectory(
        timestampNanoseconds: Numeric4,
        orderBookId: Numeric4,
        symbol: seq<Char>,
        longName: seq<Char>,
        isin: seq<Char>,
        financialProduct: Numeric1,
        tradingCurrency: seq<Char>,
        numberOfDecimalsInPrice: Numeric2,
        numberOfDecimalsInNominalValue: Numeric2,
        oddLotSize: Numeric4,
        roundLotSize: Numeric4,
        blockLotSize: Numeric4,
        nominalValue: Numeric8,
        numberOfLegs: Numeric1,
        commodityCode: Numeric4,
        strikePrice: Price,
        expirationDate: Date,
        numberOfDecimalsInStrikePrice: Numeric2,
        putOrCall: Numeric1)
    | CombinationOrderBookLeg(
        timestampNanoseconds: Numeric4,
        combinationOrderBookId: Numeric4,
        legOrderBookId: Numeric4,
        legSide: Char,
        legRatio: Numeric4)
    | TickSizeTableEntry(
        timestampNanoseconds: Numeric4,
        orderBookId: Numeric4,
        tickSize: Numeric8,
        priceFrom: Price,
        priceTo: Price)
    | SystemEvent(timestampNanoseconds: Numeric4, eventCode: Char)
    | OrderBookState(timestampNanoseconds: Numeric4, orderBookId: Numeric4, stateName: seq<Char>)
    | AddOrder(
        timestampNanoseconds: Numeric4,
        orderId: Numeric8,
        orderBookId: Numeric4,
        side: Char,
        orderBookPosition: Numeric4,
        quantity: Numeric8,
        price: Price,
        orderAttributes: Numeric2,
        lotType: Numeric1)
    | OrderExecuted(executed: Execution)
    | OrderExecutedWithPrice(executed: Execution, tradePrice: Price, occurredAtCross: Char, printable: Char)
    | OrderReplace(
        timestampNanoseconds: Numeric4,
        orderId: Numeric8,
        orderBookId: Numeric4,
        side: Char,
        newOrderBookPosition: Numeric4,
        quantity: Numeric8,
        price: Price,
        orderAttributes: Numeric2)
    | OrderDelete(timestampNanoseconds: Numeric4, orderId: Numeric8, orderBookId: Numeric4, side: Char)
    | Trade(
        timestampNanoseconds: Numeric4,
        matchId: Numeric8,
        comboGroupId: Numeric4,
        side: Char,
        quantity: Numeric8,
        orderBookId: Numeric4,
        tradePrice: Price,
        reserved1: seq<Char>,
        reserved2: seq<Char>,
        printable: Char,
        occurredAtCross: Char)
    | EquilibriumPriceUpdate(
        timestampNanoseconds: Numeric4,
        orderBookId: Numeric4,
        availableBidQuantityAtEquilibriumPrice: Numeric8,
        availableAskQuantityAtEquilibriumPrice: Numeric8,
        equilibriumPrice: Price,
        bestBidPrice: Price,
        bestAskPrice: Price,
        bestBidQuantity: Numeric8,
        bestAskQuantity: Numeric8)

  /** The message type a record is cast from. */
  function TypeOf(r: Record): (t: MessageType)
    ensures t != MessageType.EndOfSnapshot
  {
    match r
    case Seconds(_) => MessageType.Seconds
    case OrderBookDirectory(_, _, _, _, _, _, _, _, _, _, _, _, _, _, _, _, _, _, _) => MessageType.OrderBookDirectory
    case CombinationOrderBookLeg(_, _, _, _, _) => MessageType.CombinationOrderBookDirectory
    case TickSizeTableEntry(_, _, _, _, _) => MessageType.TickSize
    case SystemEvent(_, _) => MessageType.SystemEvent
    case OrderBookState(_, _, _) => MessageType.OrderBookState
    case AddOrder(_, _, _, _, _, _, _, _, _) => MessageType.AddOrder
    case OrderExecuted(_) => MessageType.OrderExecuted
    case OrderExecutedWithPrice(_, _, _, _) => MessageType.OrderExecutedWithPrice
    case OrderReplace(_, _, _, _, _, _, _, _) => MessageType.OrderReplace
    case OrderDelete(_, _, _, _) => MessageType.OrderDelete
    case Trade(_, _, _, _, _, _, _, _, _, _, _) => MessageType.TradeMessageIdentifier
    case EquilibriumPriceUpdate(_, _, _, _, _, _, _, _, _) => MessageType.EquilibriumPriceUpdate
  }

  const Numeric1Field: DataType := NumericField(1)
  const Numeric2Field: DataType := NumericField(2)
  const Numeric4Field: DataType := NumericField(4)
  const Numeric8Field: DataType := NumericField(8)
  const ReservedField: DataType := AlphaField(7)

  const ExecutionLayout: seq<DataType> := [
    Numeric4Field, Numeric8Field, Numeric4Field, CharField, Numeric8Field,
    Numeric8Field, Numeric4Field, ReservedField, ReservedField]

  const SecondsLayout: seq<DataType> := [Numeric4Field]
  const OrderBookDirectoryLayout: seq<DataType> := [
    Numeric4Field, Numeric4Field, AlphaField(32), AlphaField(32), AlphaField(12),
    Numeric1Field, AlphaField(3), Numeric2Field, Numeric2Field, Numeric4Field,
    Numeric4Field, Numeric4Field, Numeric8Field, Numeric1Field, Numeric4Field,
    PriceField, DateField, Numeric2Field, Numeric1Field]
  const CombinationOrderBookLegLayout: seq<DataType> := [
    Numeric4Field, Numeric4Field, Numeric4Field, CharField, Numeric4Field]
  const TickSizeTableEntryLayout: seq<DataType> := [
    Numeric4Field, Numeric4Field, Numeric8Field, PriceField, PriceField]
  const SystemEventLayout: seq<DataType> := [Numeric4Field, CharField]
  const OrderBookStateLayout: seq<DataType> := [Numeric4Field, Numeric4Field, AlphaField(20)]
  const AddOrderLayout: seq<DataType> := [
    Numeric4Field, Numeric8Field, Numeric4Field, CharField, Numeric4Field,
    Numeric8Field, PriceField, Numeric2Field, Numeric1Field]
  const OrderExecutedWithPriceLayout: seq<DataType> := ExecutionLayout + [PriceField, CharField, CharField]
  const OrderReplaceLayout: seq<DataType> := [
    Numeric4Field, Numeric8Field, Numeric4Field, CharField, Numeric4Field,
    Numeric8Field, PriceField, Numeric2Field]
  const OrderDeleteLayout: seq<DataType> := [Numeric4Field, Numeric8Field, Numeric4Field, CharField]
  const TradeLayout: seq<DataType> := [
    Numeric4Field, Numeric8Field, Numeric4Field, CharField, Numeric8Field,
    Numeric4Field, PriceField, ReservedField, ReservedField, CharField, CharField]
  const EquilibriumPriceUpdateLayout: seq<DataType> := [
    Numeric4Field, Numeric4Field, Numeric8Field, Numeric8Field, PriceField,
    PriceField, PriceField, Numeric8Field, Numeric8Field]

  /** The fields that follow the message type byte, in declaration order. */
  function Layout(t: MessageType): (layout: seq<DataType>)
    requires t != MessageType.EndOfSnapshot
    ensures forall i :: 0 <= i < |layout| ==> Declarable(layout[i])
  {
    match t
    case Seconds => SecondsLayout
    case OrderBookDirectory => OrderBookDirectoryLayout
    case CombinationOrderBookDirectory => CombinationOrderBookLegLayout
    case TickSize => TickSizeTableEntryLayout
    case SystemEvent => SystemEventLayout
    case OrderBookState => OrderBookStateLayout
    case AddOrder => AddOrderLayout
    case OrderExecuted => ExecutionLayout
    case OrderExecutedWithPrice => OrderExecutedWithPriceLayout
    case OrderReplace => OrderReplaceLayout
    case OrderDelete => OrderDeleteLayout
    case TradeMessageIdentifier => TradeLayout
    case EquilibriumPriceUpdate => EquilibriumPriceUpdateLayout
  }

  /** Bytes a record occupies: its message type byte and its fields. */
  function RecordSize(t: MessageType): nat
    requires t != MessageType.EndOfSnapshot
  {
    1 + Size(Layout(t))
  }

  function ExecutionValues(e: Execution): seq<Value>
  {
    [UnsignedValue(e.timestampNanoseconds), UnsignedValue(e.orderId), UnsignedValue(e.orderBookId),
     CharValue(e.side), UnsignedValue(e.executedQuantity), UnsignedValue(e.matchId),
     UnsignedValue(e.comboGroupId), TextValue(e.reserved1), TextValue(e.reserved2)]
  }

  /** A record's fields, in declaration order. */
  function Values(r: Record): seq<Value>
  {
    match r
    case Seconds(s) => [UnsignedValue(s)]
    case OrderBookDirectory(ts, book, sym, name, isin, product, currency, dp, dn, odd, round, block, nominal, legs, commodity, strike, expiry, ds, pc) =>
      [UnsignedValue(ts), UnsignedValue(book), TextValue(sym), TextValue(name), TextValue(isin),
       UnsignedValue(product), TextValue(currency), UnsignedValue(dp), UnsignedValue(dn), UnsignedValue(odd),
       UnsignedValue(round), UnsignedValue(block), UnsignedValue(nominal), UnsignedValue(legs), UnsignedValue(commodity),
       SignedValue(strike), UnsignedValue(expiry), UnsignedValue(ds), UnsignedValue(pc)]
    case CombinationOrderBookLeg(ts, combo, leg, legSide, ratio) =>
      [UnsignedValue(ts), UnsignedValue(combo), UnsignedValue(leg), CharValue(legSide), UnsignedValue(ratio)]
    case TickSizeTableEntry(ts, book, tick, from, to) =>
      [UnsignedValue(ts), UnsignedValue(book), UnsignedValue(tick), SignedValue(from), SignedValue(to)]
    case SystemEvent(ts, code) => [UnsignedValue(ts), CharValue(code)]
    case OrderBookState(ts, book, state) => [UnsignedValue(ts), UnsignedValue(book), TextValue(state)]
    case AddOrder(ts, id, book, side, position, qty, price, attributes, lot) =>
      [UnsignedValue(ts), UnsignedValue(id), UnsignedValue(book), CharValue(side), UnsignedValue(position),
       UnsignedValue(qty), SignedValue(price), UnsignedValue(attributes), UnsignedValue(lot)]
    case OrderExecuted(e) => ExecutionValues(e)
    case OrderExecutedWithPrice(e, price, cross, printable) =>
      ExecutionValues(e) + [SignedValue(price), CharValue(cross), CharValue(printable)]
    case OrderReplace(ts, id, book, side, position, qty, price, attributes) =>
      [UnsignedValue(ts), UnsignedValue(id), UnsignedValue(book), CharValue(side), UnsignedValue(position),
       UnsignedValue(qty), SignedValue(price), UnsignedValue(attributes)]
    case OrderDelete(ts, id, book, side) =>
      [UnsignedValue(ts), UnsignedValue(id), UnsignedValue(book), CharValue(side)]
    case Trade(ts, matchId, combo, side, qty, book, price, r1, r2, printable, cross) =>
      [UnsignedValue(ts), UnsignedValue(matchId), UnsignedValue(combo), CharValue(side), UnsignedValue(qty),
       UnsignedValue(book), SignedValue(price), TextValue(r1), TextValue(r2), CharValue(printable), CharValue(cross)]
    case EquilibriumPriceUpdate(ts, book, bidQty, askQty, eq, bestBid, bestAsk, bestBidQty, bestAskQty) =>
      [UnsignedValue(ts), UnsignedValue(book), UnsignedValue(bidQty), UnsignedValue(askQty), SignedValue(eq),
       SignedValue(bestBid), SignedValue(bestAsk), UnsignedValue(bestBidQty), UnsignedValue(bestAskQty)]
  }

  /** A record whose text fields have their declared widths. */
  predicate WellFormed(r: Record)
  {
    Conforms(Layout(TypeOf(r)), Values(r))
  }

  // Field accessors used when a record is built from values read off the
  // wire; outside their type they yield a default that a conforming list
  // never reaches.
  function U1(vs: seq<Value>, i: nat): Numeric1
  {
    if i < |vs| && vs[i].UnsignedValue? && vs[i].n < 0x100 then vs[i].n else 0
  }

  function U2(vs: seq<Value>, i: nat): Numeric2
  {
    if i < |vs| && vs[i].UnsignedValue? && vs[i].n < 0x1_0000 then vs[i].n else 0
  }

  function U4(vs: seq<Value>, i: nat): Numeric4
  {
    if i < |vs| && vs[i].UnsignedValue? && vs[i].n < 0x1_0000_0000 then vs[i].n else 0
  }

  function U8(vs: seq<Value>, i: nat): Numeric8
  {
    if i < |vs| && vs[i].UnsignedValue? && vs[i].n < 0x1_0000_0000_0000_0000 then vs[i].n else 0
  }

  function P(vs: seq<Value>, i: nat): Price
  {
    if i < |vs| && vs[i].SignedValue? && -0x8000_0000 <= vs[i].i < 0x8000_0000 then vs[i].i else 0
  }

  function C(vs: seq<Value>, i: nat): Char
  {
    if i < |vs| && vs[i].CharValue? then vs[i].c else ' '
  }

  function A(vs: seq<Value>, i: nat): seq<Char>
  {
    if i < |vs| && vs[i].TextValue? then vs[i].s else []
  }

  function ExecutionOf(vs: seq<Value>): Execution
  {
    Execution(U4(vs, 0), U8(vs, 1), U4(vs, 2), C(vs, 3), U8(vs, 4), U8(vs, 5), U4(vs, 6), A(vs, 7), A(vs, 8))
  }

  /** The record of type `t` whose fields are `vs`: the cast of the source. */
  function FromValues(t: MessageType, vs: seq<Value>): (r: Record)
    requires t != MessageType.EndOfSnapshot
    ensures TypeOf(r) == t
  {
    match t
    case Seconds => Record.Seconds(U4(vs, 0))
    case OrderBookDirectory =>
      Record.OrderBookDirectory(U4(vs, 0), U4(vs, 1), A(vs, 2), A(vs, 3), A(vs, 4), U1(vs, 5), A(vs, 6), U2(vs, 7),
        U2(vs, 8), U4(vs, 9), U4(vs, 10), U4(vs, 11), U8(vs, 12), U1(vs, 13), U4(vs, 14), P(vs, 15),
        U4(vs, 16), U2(vs, 17), U1(vs, 18))
    case CombinationOrderBookDirectory =>
      Record.CombinationOrderBookLeg(U4(vs, 0), U4(vs, 1), U4(vs, 2), C(vs, 3), U4(vs, 4))
    case TickSize => Record.TickSizeTableEntry(U4(vs, 0), U4(vs, 1), U8(vs, 2), P(vs, 3), P(vs, 4))
    case SystemEvent => Record.SystemEvent(U4(vs, 0), C(vs, 1))
    case OrderBookState => Record.OrderBookState(U4(vs, 0), U4(vs, 1), A(vs, 2))
    case AddOrder =>
      Record.AddOrder(U4(vs, 0), U8(vs, 1), U4(vs, 2), C(vs, 3), U4(vs, 4), U8(vs, 5), P(vs, 6), U2(vs, 7), U1(vs, 8))
    case OrderExecuted => Record.OrderExecuted(ExecutionOf(vs))
    case OrderExecutedWithPrice => Record.OrderExecutedWithPrice(ExecutionOf(vs), P(vs, 9), C(vs, 10), C(vs, 11))
    case OrderReplace =>
      Record.OrderReplace(U4(vs, 0), U8(vs, 1), U4(vs, 2), C(vs, 3), U4(vs, 4), U8(vs, 5), P(vs, 6), U2(vs, 7))
    case OrderDelete => Record.OrderDelete(U4(vs, 0), U8(vs, 1), U4(vs, 2), C(vs, 3))
    case TradeMessageIdentifier =>
      Record.Trade(U4(vs, 0), U8(vs, 1), U4(vs, 2), C(vs, 3), U8(vs, 4), U4(vs, 5), P(vs, 6), A(vs, 7), A(vs, 8),
        C(vs, 9), C(vs, 10))
    case EquilibriumPriceUpdate =>
      Record.EquilibriumPriceUpdate(U4(vs, 0), U4(vs, 1), U8(vs, 2), U8(vs, 3), P(vs, 4), P(vs, 5), P(vs, 6),
        U8(vs, 7), U8(vs, 8))
  }

  // The cast of each record type, one lemma per type so that each proof
  // sees one layout.

  lemma SecondsCast(vs: seq<Value>)
    requires Conforms(SecondsLayout, vs)
    ensures Values(FromValues(MessageType.Seconds, vs)) == vs
  {
    Pow256Widths();
  }

  lemma OrderBookDirectoryCast(vs: seq<Value>)
    requires Conforms(OrderBookDirectoryLayout, vs)
    ensures Values(FromValues(MessageType.OrderBookDirectory, vs)) == vs
  {
    Pow256Widths();
  }

  lemma CombinationOrderBookLegCast(vs: seq<Value>)
    requires Conforms(CombinationOrderBookLegLayout, vs)
    ensures Values(FromValues(MessageType.CombinationOrderBookDirectory, vs)) == vs
  {
    Pow256Widths();
  }

  lemma TickSizeTableEntryCast(vs: seq<Value>)
    requires Conforms(TickSizeTableEntryLayout, vs)
    ensures Values(FromValues(MessageType.TickSize, vs)) == vs
  {
    Pow256Widths();
  }

  lemma SystemEventCast(vs: seq<Value>)
    requires Conforms(SystemEventLayout, vs)
    ensures Values(FromValues(MessageType.SystemEvent, vs)) == vs
  {
    Pow256Widths();
  }

  lemma OrderBookStateCast(vs: seq<Value>)
    requires Conforms(OrderBookStateLayout, vs)
    ensures Values(FromValues(MessageType.OrderBookState, vs)) == vs
  {
    Pow256Widths();
  }

  lemma AddOrderCast(vs: seq<Value>)
    requires Conforms(AddOrderLayout, vs)
    ensures Values(FromValues(MessageType.AddOrder, vs)) == vs
  {
    Pow256Widths();
  }

  lemma OrderExecutedCast(vs: seq<Value>)
    requires Conforms(ExecutionLayout, vs)
    ensures Values(FromValues(MessageType.OrderExecuted, vs)) == vs
  {
    Pow256Widths();
  }

  lemma OrderExecutedWithPriceCast(vs: seq<Value>)
    requires Conforms(OrderExecutedWithPriceLayout, vs)
    ensures Values(FromValues(MessageType.OrderExecutedWithPrice, vs)) == vs
  {
    Pow256Widths();
  }

  lemma OrderReplaceCast(vs: seq<Value>)
    requires Conforms(OrderReplaceLayout, vs)
    ensures Values(FromValues(MessageType.OrderReplace, vs)) == vs
  {
    Pow256Widths();
  }

  lemma OrderDeleteCast(vs: seq<Value>)
    requires Conforms(OrderDeleteLayout, vs)
    ensures Values(FromValues(MessageType.OrderDelete, vs)) == vs
  {
    Pow256Widths();
  }

  lemma TradeCast(vs: seq<Value>)
    requires Conforms(TradeLayout, vs)
    ensures Values(FromValues(MessageType.TradeMessageIdentifier, vs)) == vs
  {
    Pow256Widths();
  }

  lemma EquilibriumPriceUpdateCast(vs: seq<Value>)
    requires Conforms(EquilibriumPriceUpdateLayout, vs)
    ensures Values(FromValues(MessageType.EquilibriumPriceUpdate, vs)) == vs
  {
    Pow256Widths();
  }

  lemma OrderBookDirectoryFields(r: Record)
    requires r.OrderBookDirectory?
    ensures FromValues(MessageType.OrderBookDirectory, Values(r)) == r
  {
  }

  lemma OrderExecutedWithPriceFields(r: Record)
    requires r.OrderExecutedWithPrice?
    ensures FromValues(MessageType.OrderExecutedWithPrice, Values(r)) == r
  {
  }

  lemma TradeFields(r: Record)
    requires r.Trade?
    ensures FromValues(MessageType.TradeMessageIdentifier, Values(r)) == r
  {
  }

  lemma EquilibriumPriceUpdateFields(r: Record)
    requires r.EquilibriumPriceUpdate?
    ensures FromValues(MessageType.EquilibriumPriceUpdate, Values(r)) == r
  {
  }

  /** Reading a record's fields and casting them back loses nothing. */
  lemma RecordOfValues(r: Record)
    ensures FromValues(TypeOf(r), Values(r)) == r
  {
    match r
    case Seconds(_) =>
    case OrderBookDirectory(_, _, _, _, _, _, _, _, _, _, _, _, _, _, _, _, _, _, _) => OrderBookDirectoryFields(r);
    case CombinationOrderBookLeg(_, _, _, _, _) =>
    case TickSizeTableEntry(_, _, _, _, _) =>
    case SystemEvent(_, _) =>
    case OrderBookState(_, _, _) =>
    case AddOrder(_, _, _, _, _, _, _, _, _) =>
    case OrderExecuted(_) =>
    case OrderExecutedWithPrice(_, _, _, _) => OrderExecutedWithPriceFields(r);
    case OrderReplace(_, _, _, _, _, _, _, _) =>
    case OrderDelete(_, _, _, _) =>
    case Trade(_, _, _, _, _, _, _, _, _, _, _) => TradeFields(r);
    case EquilibriumPriceUpdate(_, _, _, _, _, _, _, _, _) => EquilibriumPriceUpdateFields(r);
  }

  /** Every conforming list of field values is the field list of exactly one
      record of type `t`. */
  lemma ValuesOfRecord(t: MessageType, vs: seq<Value>)
    requires t != MessageType.EndOfSnapshot
    requires Conforms(Layout(t), vs)
    ensures Values(FromValues(t, vs)) == vs
  {
    match t
    case Seconds => SecondsCast(vs);
    case OrderBookDirectory => OrderBookDirectoryCast(vs);
    case CombinationOrderBookDirectory => CombinationOrderBookLegCast(vs);
    case TickSize => TickSizeTableEntryCast(vs);
    case SystemEvent => SystemEventCast(vs);
    case OrderBookState => OrderBookStateCast(vs);
    case AddOrder => AddOrderCast(vs);
    case OrderExecuted => OrderExecutedCast(vs);
    case OrderExecutedWithPrice => OrderExecutedWithPriceCast(vs);
    case OrderReplace => OrderReplaceCast(vs);
    case OrderDelete => OrderDeleteCast(vs);
    case TradeMessageIdentifier => TradeCast(vs);
    case EquilibriumPriceUpdate => EquilibriumPriceUpdateCast(vs);
  }

  /** The packed bytes of a record: its message type byte, then its fields. */
  function Encode(r: Record): (b: seq<byte>)
    requires WellFormed(r)
    ensures |b| == RecordSize(TypeOf(r)) && b[0] == Code(TypeOf(r)) as int
  {
    EncodeFields(Code(TypeOf(r)) as int, Layout(TypeOf(r)), Values(r))
  }

  /** The record of type `t` laid over `data`, which starts with the message
      type byte: each field read at its fixed offset, then cast to the record
      type. Nothing in the bytes is lost. */
  function ReadRecord(t: MessageType, data: seq<byte>): (r: Record)
    requires t != MessageType.EndOfSnapshot
    requires |data| >= RecordSize(t) && data[0] == Code(t) as int
    ensures TypeOf(r) == t
  {
    FromValues(t, DecodeFields(Layout(t), data))
  }

  /** A record read from `data` has the declared widths, and encoding it
      gives back the bytes it was read from: the cast drops nothing. */
  lemma EncodeRead(t: MessageType, data: seq<byte>)
    requires t != MessageType.EndOfSnapshot
    requires |data| >= RecordSize(t) && data[0] == Code(t) as int
    ensures WellFormed(ReadRecord(t, data))
    ensures Encode(ReadRecord(t, data)) == data[..RecordSize(t)]
  {
    var vs := DecodeFields(Layout(t), data);
    ValuesOfRecord(t, vs);
    assert Values(ReadRecord(t, data)) == vs;
  }

  /** Reading an encoded record gives the record back, whatever follows it. */
  lemma ReadEncoded(r: Record, rest: seq<byte>)
    requires WellFormed(r)
    ensures ReadRecord(TypeOf(r), Encode(r) + rest) == r
  {
    var t := TypeOf(r);
    DecodeEncodedFields(Code(t) as int, Layout(t), Values(r), rest);
    RecordOfValues(r);
  }

  /** A record read from the front of `data` is the same whatever bytes
      follow: the read stops at the record's end. */
  lemma ReadRecordExtends(t: MessageType, data: seq<byte>, rest: seq<byte>)
    requires t != MessageType.EndOfSnapshot
    requires |data| >= RecordSize(t) && data[0] == Code(t) as int
    ensures ReadRecord(t, data + rest) == ReadRecord(t, data)
  {
    assert (data + rest)[0] == data[0] && (data + rest)[1..] == data[1..] + rest;
    ReadFieldsExtend(Layout(t), data[1..], rest);
  }

  /** A record is read from its type's size of bytes alone. */
  lemma ReadRecordPrefix(t: MessageType, data: seq<byte>)
    requires t != MessageType.EndOfSnapshot
    requires |data| >= RecordSize(t) && data[0] == Code(t) as int
    ensures data[..RecordSize(t)][0] == data[0]
    ensures ReadRecord(t, data) == ReadRecord(t, data[..RecordSize(t)])
  {
    var n := RecordSize(t);
    assert data == data[..n] + data[n..];
    ReadRecordExtends(t, data[..n], data[n..]);
  }

  lemma SecondsLayoutSize()
    ensures Size(SecondsLayout) == 4
  {
    var l := SecondsLayout;
    SizeIsLastOffset(l);
    assert Offset(l, 1) == 4;
  }

  lemma SystemEventLayoutSize()
    ensures Size(SystemEventLayout) == 5
  {
    var l := SystemEventLayout;
    SizeIsLastOffset(l);
    assert Offset(l, 1) == 4;
    assert Offset(l, 2) == 5;
  }

  lemma CombinationOrderBookLegLayoutSize()
    ensures Size(CombinationOrderBookLegLayout) == 17
  {
    var l := CombinationOrderBookLegLayout;
    SizeIsLastOffset(l);
    assert Offset(l, 1) == 4;
    assert Offset(l, 2) == 8;
    assert Offset(l, 3) == 12;
    assert Offset(l, 4) == 13;
    assert Offset(l, 5) == 17;
  }

  lemma OrderDeleteLayoutSize()
    ensures Size(OrderDeleteLayout) == 17
  {
    var l := OrderDeleteLayout;
    SizeIsLastOffset(l);
    assert Offset(l, 1) == 4;
    assert Offset(l, 2) == 12;
    assert Offset(l, 3) == 16;
    assert Offset(l, 4) == 17;
  }

  lemma TickSizeTableEntryLayoutSize()
    ensures Size(TickSizeTableEntryLayout) == 24
  {
    var l := TickSizeTableEntryLayout;
    SizeIsLastOffset(l);
    assert Offset(l, 1) == 4;
    assert Offset(l, 2) == 8;
    assert Offset(l, 3) == 16;
    assert Offset(l, 4) == 20;
    assert Offset(l, 5) == 24;
  }

  lemma OrderBookStateLayoutSize()
    ensures Size(OrderBookStateLayout) == 28
  {
    var l := OrderBookStateLayout;
    SizeIsLastOffset(l);
    assert Offset(l, 1) == 4;
    assert Offset(l, 2) == 8;
    assert Offset(l, 3) == 28;
  }

  lemma OrderReplaceLayoutSize()
    ensures Size(OrderReplaceLayout) == 35
  {
    var l := OrderReplaceLayout;
    SizeIsLastOffset(l);
    assert Offset(l, 1) == 4;
    assert Offset(l, 2) == 12;
    assert Offset(l, 3) == 16;
    assert Offset(l, 4) == 17;
    assert Offset(l, 5) == 21;
    assert Offset(l, 6) == 29;
    assert Offset(l, 7) == 33;
    assert Offset(l, 8) == 35;
  }

  lemma AddOrderLayoutSize()
    ensures Size(AddOrderLayout) == 36
  {
    var l := AddOrderLayout;
    SizeIsLastOffset(l);
    assert Offset(l, 1) == 4;
    assert Offset(l, 2) == 12;
    assert Offset(l, 3) == 16;
    assert Offset(l, 4) == 17;
    assert Offset(l, 5) == 21;
    assert Offset(l, 6) == 29;
    assert Offset(l, 7) == 33;
    assert Offset(l, 8) == 35;
    assert Offset(l, 9) == 36;
  }

  lemma TradeLayoutSize()
    ensures Size(TradeLayout) == 49
  {
    var l := TradeLayout;
    SizeIsLastOffset(l);
    assert Offset(l, 1) == 4;
    assert Offset(l, 2) == 12;
    assert Offset(l, 3) == 16;
    assert Offset(l, 4) == 17;
    assert Offset(l, 5) == 25;
    assert Offset(l, 6) == 29;
    assert Offset(l, 7) == 33;
    assert Offset(l, 8) == 40;
    assert Offset(l, 9) == 47;
    assert Offset(l, 10) == 48;
    assert Offset(l, 11) == 49;
  }

  lemma ExecutionLayoutSize()
    ensures Size(ExecutionLayout) == 51
  {
    var l := ExecutionLayout;
    SizeIsLastOffset(l);
    assert Offset(l, 1) == 4;
    assert Offset(l, 2) == 12;
    assert Offset(l, 3) == 16;
    assert Offset(l, 4) == 17;
    assert Offset(l, 5) == 25;
    assert Offset(l, 6) == 33;
    assert Offset(l, 7) == 37;
    assert Offset(l, 8) == 44;
    assert Offset(l, 9) == 51;
  }

  lemma EquilibriumPriceUpdateLayoutSize()
    ensures Size(EquilibriumPriceUpdateLayout) == 52
  {
    var l := EquilibriumPriceUpdateLayout;
    SizeIsLastOffset(l);
    assert Offset(l, 1) == 4;
    assert Offset(l, 2) == 8;
    assert Offset(l, 3) == 16;
    assert Offset(l, 4) == 24;
    assert Offset(l, 5) == 28;
    assert Offset(l, 6) == 32;
    assert Offset(l, 7) == 36;
    assert Offset(l, 8) == 44;
    assert Offset(l, 9) == 52;
  }

  lemma OrderExecutedWithPriceLayoutSize()
    ensures Size(OrderExecutedWithPriceLayout) == 57
  {
    var l := OrderExecutedWithPriceLayout;
    SizeIsLastOffset(l);
    assert Offset(l, 1) == 4;
    assert Offset(l, 2) == 12;
    assert Offset(l, 3) == 16;
    assert Offset(l, 4) == 17;
    assert Offset(l, 5) == 25;
    assert Offset(l, 6) == 33;
    assert Offset(l, 7) == 37;
    assert Offset(l, 8) == 44;
    assert Offset(l, 9) == 51;
    assert Offset(l, 10) == 55;
    assert Offset(l, 11) == 56;
    assert Offset(l, 12) == 57;
  }

  lemma OrderBookDirectoryLayoutSize()
    ensures Size(OrderBookDirectoryLayout) == 128
  {
    var l := OrderBookDirectoryLayout;
    SizeIsLastOffset(l);
    assert Offset(l, 1) == 4;
    assert Offset(l, 2) == 8;
    assert Offset(l, 3) == 40;
    assert Offset(l, 4) == 72;
    assert Offset(l, 5) == 84;
    assert Offset(l, 6) == 85;
    assert Offset(l, 7) == 88;
    assert Offset(l, 8) == 90;
    assert Offset(l, 9) == 92;
    assert Offset(l, 10) == 96;
    assert Offset(l, 11) == 100;
    assert Offset(l, 12) == 104;
    assert Offset(l, 13) == 112;
    assert Offset(l, 14) == 113;
    assert Offset(l, 15) == 117;
    assert Offset(l, 16) == 121;
    assert Offset(l, 17) == 125;
    assert Offset(l, 18) == 127;
    assert Offset(l, 19) == 128;
  }

  /** The size of each record type as `sizeof` gives it for the packed
      struct: the sizes the feed's message formats state. */
  function PackedSize(t: MessageType): nat
  {
    match t
    case Seconds => 5
    case OrderBookDirectory => 129
    case CombinationOrderBookDirectory => 18
    case TickSize => 25
    case SystemEvent => 6
    case OrderBookState => 29
    case AddOrder => 37
    case OrderExecuted => 52
    case OrderExecutedWithPrice => 58
    case OrderReplace => 36
    case OrderDelete => 18
    case TradeMessageIdentifier => 50
    case EquilibriumPriceUpdate => 53
    case EndOfSnapshot => 0
  }

  /** Each record occupies its type byte and the widths of its fields, with
      no padding between them. */
  lemma RecordSizes(t: MessageType)
    requires t != MessageType.EndOfSnapshot
    ensures RecordSize(t) == PackedSize(t)
  {
    match t
    case Seconds => SecondsLayoutSize();
    case OrderBookDirectory => OrderBookDirectoryLayoutSize();
    case CombinationOrderBookDirectory => CombinationOrderBookLegLayoutSize();
    case TickSize => TickSizeTableEntryLayoutSize();
    case SystemEvent => SystemEventLayoutSize();
    case OrderBookState => OrderBookStateLayoutSize();
    case AddOrder => AddOrderLayoutSize();
    case OrderExecuted => ExecutionLayoutSize();
    case OrderExecutedWithPrice => OrderExecutedWithPriceLayoutSize();
    case OrderReplace => OrderReplaceLayoutSize();
    case OrderDelete => OrderDeleteLayoutSize();
    case TradeMessageIdentifier => TradeLayoutSize();
    case EquilibriumPriceUpdate => EquilibriumPriceUpdateLayoutSize();
  }

  /** `OrderExecutedWithPrice` derives from `OrderExecuted`: its layout is
      the whole `OrderExecuted` layout followed by a price, the cross flag and
      the printable flag. */
  lemma ExecutedLayoutPrefix()
    ensures Layout(MessageType.OrderExecutedWithPrice)
         == Layout(MessageType.OrderExecuted) + [PriceField, CharField, CharField]
    ensures Size(Layout(MessageType.OrderExecutedWithPrice)) == Size(Layout(MessageType.OrderExecuted)) + 6
  {
    SizeAppend(ExecutionLayout, [PriceField, CharField, CharField]);
  }

  lemma ReadExecuted(data: seq<byte>)
    requires |data| >= RecordSize(MessageType.OrderExecuted) && data[0] == 'E' as int
    ensures ReadRecord(MessageType.OrderExecuted, data).executed == ExecutionOf(ReadFields(ExecutionLayout, data[1..]))
  {
  }

  lemma ReadExecutedWithPrice(data: seq<byte>)
    requires |data| >= RecordSize(MessageType.OrderExecutedWithPrice) && data[0] == 'C' as int
    ensures ReadRecord(MessageType.OrderExecutedWithPrice, data).executed
         == ExecutionOf(ReadFields(OrderExecutedWithPriceLayout, data[1..]))
  {
  }

  /** The execution an `OrderExecutedWithPrice` message carries is the one an
      `OrderExecuted` message with the same bytes after the type byte
      carries: the source reads it through the base layout. */
  lemma ExecutedPrefix(withPrice: seq<byte>, plain: seq<byte>)
    requires |withPrice| >= RecordSize(MessageType.OrderExecutedWithPrice) && withPrice[0] == 'C' as int
    requires |plain| == |withPrice| && plain[0] == 'E' as int && plain[1..] == withPrice[1..]
    ensures |plain| >= RecordSize(MessageType.OrderExecuted)
    ensures ReadRecord(MessageType.OrderExecutedWithPrice, withPrice).executed
         == ReadRecord(MessageType.OrderExecuted, plain).executed
  {
    ExecutedLayoutPrefix();
    ExecutionOfPrefix([PriceField, CharField, CharField], plain[1..]);
    ReadExecutedWithPrice(withPrice);
    ReadExecuted(plain);
  }

  lemma ExecutionOfPrefix(extra: seq<DataType>, b: seq<byte>)
    requires |b| >= Size(ExecutionLayout + extra)
    ensures Size(ExecutionLayout) <= |b|
    ensures ExecutionOf(ReadFields(ExecutionLayout + extra, b)) == ExecutionOf(ReadFields(ExecutionLayout, b))
  {
    ReadFieldsPrefix(ExecutionLayout, extra, b);
    var vs := ReadFields(ExecutionLayout + extra, b);
    var ws := ReadFields(ExecutionLayout, b);
    assert forall i :: 0 <= i < 9 ==> vs[i] == ws[i];
  }
}

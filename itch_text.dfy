/** The text a record renders as (`to_string` of each record of
    itch_protocol.h): the type character, then the record's fields in
    declaration order, comma-joined, each through its `sprintf` conversion.

    `sprintf` writes into a buffer that is returned as a `std::string`, so
    the text ends at the first NUL the conversions write (a `%c` of a zero
    byte); a `%s` of a text field prints it up to its first NUL. */
module ItchText {
  import opened Utils
  import opened Constants
  import opened Printf
  import opened Itch

  // The conversions of each rendering, field by field.
  const ExecutionFormat: seq<Conversion> :=
    [Unsigned, Hex16, Unsigned, Character, UnsignedLong, Hex16, Unsigned, Omitted, Omitted]
  /** What `OrderExecutedWithPrice` appends to the `OrderExecuted` text. */
  const WithPriceFormat: seq<Conversion> := [Signed, Character, Character]

  const SecondsFormat: seq<Conversion> := [Unsigned]
  const OrderBookDirectoryFormat: seq<Conversion> := [
    Unsigned, Unsigned, Text, Text, Text, Unsigned, Text, Unsigned, Unsigned, Unsigned,
    Unsigned, Unsigned, UnsignedLong, Unsigned, Unsigned, Signed, Unsigned, Unsigned, Unsigned]
  const CombinationOrderBookLegFormat: seq<Conversion> := [Unsigned, Unsigned, Unsigned, Character, Unsigned]
  const TickSizeTableEntryFormat: seq<Conversion> := [Unsigned, Unsigned, UnsignedLong, Signed, Signed]
  const SystemEventFormat: seq<Conversion> := [Unsigned, Character]
  const OrderBookStateFormat: seq<Conversion> := [Unsigned, Unsigned, Text]
  const AddOrderFormat: seq<Conversion> :=
    [Unsigned, Hex16, Unsigned, Character, Unsigned, UnsignedLong, Signed, Unsigned, Unsigned]
  const OrderDeleteFormat: seq<Conversion> := [Unsigned, Hex16, Unsigned, Character]
  const TradeFormat: seq<Conversion> :=
    [Unsigned, Hex16, Unsigned, Character, UnsignedLong, Unsigned, Signed, Omitted, Omitted, Character, Character]
  const EquilibriumPriceUpdateFormat: seq<Conversion> :=
    [Unsigned, Unsigned, UnsignedLong, UnsignedLong, Signed, Signed, Signed, UnsignedLong, UnsignedLong]

  /** The conversion of each field of a rendered record type (`OrderReplace`
      is not rendered field by field). */
  function Format(t: MessageType): (format: seq<Conversion>)
    requires t != MessageType.EndOfSnapshot && t != MessageType.OrderReplace
  {
    match t
    case Seconds => SecondsFormat
    case OrderBookDirectory => OrderBookDirectoryFormat
    case CombinationOrderBookDirectory => CombinationOrderBookLegFormat
    case TickSize => TickSizeTableEntryFormat
    case SystemEvent => SystemEventFormat
    case OrderBookState => OrderBookStateFormat
    case AddOrder => AddOrderFormat
    case OrderExecuted => ExecutionFormat
    case OrderExecutedWithPrice => ExecutionFormat + WithPriceFormat
    case OrderDelete => OrderDeleteFormat
    case TradeMessageIdentifier => TradeFormat
    case EquilibriumPriceUpdate => EquilibriumPriceUpdateFormat
  }

  /** The conversion `c` is the one the source applies to a field of type
      `d`: `%u` to a field of at most 32 bits, `%lu` or `%016lX` to an 8-byte
      one, `%d` to a price, `%c` to a character, `%s` to a text field, and
      the reserved fields are left out. */
  predicate Agrees(c: Conversion, d: DataType)
  {
    match c
    case Character => d == CharField
    case Unsigned => d == DateField || d == NumericField(1) || d == NumericField(2) || d == NumericField(4)
    case UnsignedLong => d == NumericField(8)
    case Hex16 => d == NumericField(8)
    case Signed => d == PriceField
    case Text => d.AlphaField? && d != ReservedField
    case Omitted => d == ReservedField
  }

  /** `v` is a value the conversion `c` can print. */
  predicate Matches(c: Conversion, v: Value)
  {
    match c
    case Character => v.CharValue?
    case Unsigned => v.UnsignedValue? && v.n < 0x1_0000_0000
    case UnsignedLong => v.UnsignedValue? && v.n < 0x1_0000_0000_0000_0000
    case Hex16 => v.UnsignedValue? && v.n < 0x1_0000_0000_0000_0000
    case Signed => v.SignedValue?
    case Text => v.TextValue?
    case Omitted => true
  }

  /** One value per conversion, each one the conversion can print. */
  predicate Renderable(format: seq<Conversion>, vs: seq<Value>)
  {
    |format| == |vs| && (|format| == 0 || (Matches(format[0], vs[0]) && Renderable(format[1..], vs[1..])))
  }

  /** `format` has one conversion per field of `layout`, each agreeing
      with its field's type. */
  predicate AgreesWith(format: seq<Conversion>, layout: seq<DataType>)
  {
    |format| == |layout| && forall i :: 0 <= i < |layout| ==> Agrees(format[i], layout[i])
  }

  /** Every rendering converts each field the way its type calls for, and
      has one conversion per field of the layout. */
  lemma FormatAgrees(t: MessageType)
    requires t != MessageType.EndOfSnapshot && t != MessageType.OrderReplace
    ensures AgreesWith(Format(t), Layout(t))
  {
    match t
    case Seconds => assert AgreesWith(SecondsFormat, SecondsLayout) by { }
    case OrderBookDirectory => assert AgreesWith(OrderBookDirectoryFormat, OrderBookDirectoryLayout) by { }
    case CombinationOrderBookDirectory => assert AgreesWith(CombinationOrderBookLegFormat, CombinationOrderBookLegLayout) by { }
    case TickSize => assert AgreesWith(TickSizeTableEntryFormat, TickSizeTableEntryLayout) by { }
    case SystemEvent => assert AgreesWith(SystemEventFormat, SystemEventLayout) by { }
    case OrderBookState => assert AgreesWith(OrderBookStateFormat, OrderBookStateLayout) by { }
    case AddOrder => assert AgreesWith(AddOrderFormat, AddOrderLayout) by { }
    case OrderExecuted => assert AgreesWith(ExecutionFormat, ExecutionLayout) by { }
    case OrderExecutedWithPrice => assert AgreesWith(ExecutionFormat + WithPriceFormat, OrderExecutedWithPriceLayout) by { }
    case OrderDelete => assert AgreesWith(OrderDeleteFormat, OrderDeleteLayout) by { }
    case TradeMessageIdentifier => assert AgreesWith(TradeFormat, TradeLayout) by { }
    case EquilibriumPriceUpdate => assert AgreesWith(EquilibriumPriceUpdateFormat, EquilibriumPriceUpdateLayout) by { }
  }

  /** Values that conform to a layout can be printed by a format that agrees
      with it. */
  lemma {:induction false} AgreementMatches(format: seq<Conversion>, layout: seq<DataType>, vs: seq<Value>)
    requires AgreesWith(format, layout) && Conforms(layout, vs)
    ensures Renderable(format, vs)
  {
    if |format| > 0 {
      Pow256Widths();
      assert Agrees(format[0], layout[0]) && Fits(layout[0], vs[0]);
      assert AgreesWith(format[1..], layout[1..]) by {
        forall i | 0 <= i < |layout| - 1
          ensures Agrees(format[1..][i], layout[1..][i])
        {
          assert Agrees(format[i + 1], layout[i + 1]);
        }
      }
      assert Conforms(layout[1..], vs[1..]) by {
        forall i | 0 <= i < |layout| - 1
          ensures Fits(layout[1..][i], vs[1..][i])
        {
          assert Fits(layout[i + 1], vs[i + 1]);
        }
      }
      AgreementMatches(format[1..], layout[1..], vs[1..]);
    }
  }

  lemma RecordRenderable(r: Record)
    requires WellFormed(r) && !r.OrderReplace?
    ensures Renderable(Format(TypeOf(r)), Values(r))
  {
    FormatAgrees(TypeOf(r));
    AgreementMatches(Format(TypeOf(r)), Layout(TypeOf(r)), Values(r));
  }

  /** `sprintf`'s text for one field. */
  function Column(c: Conversion, v: Value): (s: string)
    requires c != Omitted && Matches(c, v)
  {
    match c
    case Character => [v.c]
    case Unsigned => DecimalText(v.n)
    case UnsignedLong => DecimalText(v.n)
    case Hex16 => Hex16Text(v.n)
    case Signed => SignedText(v.i)
    case Text => CString(TrimRight(v.s))
  }

  /** An unsigned field prints as decimal digits that read back as its
      value; `%016lX` prints sixteen hexadecimal digits. */
  lemma UnsignedColumn(c: Conversion, v: Value)
    requires c == Unsigned || c == UnsignedLong || c == Hex16
    requires Matches(c, v)
    ensures c != Hex16 ==> |Column(c, v)| >= 1 && ParseBase(10, Column(c, v)) == v.n
    ensures c == Hex16 ==> |Column(c, v)| == 16 && ParseBase(16, Column(c, v)) == v.n
    ensures c != Hex16 ==> Decimal(Column(c, v))
    ensures c == Hex16 ==> forall j :: 0 <= j < 16 ==> IsDigit(Column(c, v)[j])
    ensures Plain(Column(c, v))
  {
  }

  /** A price prints as an optional minus sign and the digits of its
      magnitude. */
  lemma SignedColumn(v: Value)
    requires v.SignedValue?
    ensures |Column(Signed, v)| >= 1 && (v.i < 0 <==> Column(Signed, v)[0] == '-')
    ensures v.i < 0 ==> ParseBase(10, Column(Signed, v)[1..]) == -v.i
    ensures v.i >= 0 ==> ParseBase(10, Column(Signed, v)) == v.i
    ensures Decimal(if v.i < 0 then Column(Signed, v)[1..] else Column(Signed, v))
    ensures Plain(Column(Signed, v))
  {
  }

  /** A text field prints as `alpha_to_string` of it, up to its first NUL. */
  lemma TextColumn(v: Value)
    requires v.TextValue?
    ensures Column(Text, v) == TrimRight(v.s)[..|Column(Text, v)|]
    ensures forall j :: 0 <= j < |Column(Text, v)| ==> Column(Text, v)[j] != Nul
    ensures |Column(Text, v)| < |TrimRight(v.s)| ==> TrimRight(v.s)[|Column(Text, v)|] == Nul
  {
  }

  lemma AppendAssociates<T>(a: seq<T>, b: seq<T>, c: seq<T>)
    ensures a + (b + c) == (a + b) + c
  {
  }

  lemma TailOfAppend<T>(a: seq<T>, b: seq<T>)
    requires |a| > 0
    ensures (a + b)[0] == a[0] && (a + b)[1..] == a[1..] + b
  {
  }

  /** The columns of the fields a format prints, in field order. */
  function Columns(format: seq<Conversion>, vs: seq<Value>): (columns: seq<string>)
    requires Renderable(format, vs)
    ensures |columns| <= |format|
  {
    if |format| == 0 then [] else Printed(format[0], vs[0]) + Columns(format[1..], vs[1..])
  }

  /** The column of one field, or none when the format leaves it out. */
  function Printed(c: Conversion, v: Value): (columns: seq<string>)
    requires Matches(c, v)
    ensures |columns| == if c == Omitted then 0 else 1
  {
    if c == Omitted then [] else [Column(c, v)]
  }

  /** A `sprintf` of the type character `code` and the fields `vs`. */
  function Render(code: char, format: seq<Conversion>, vs: seq<Value>): string
    requires Renderable(format, vs)
  {
    CString(Join([[code]] + Columns(format, vs)))
  }

  /** `to_string` of each record. */
  function ToString(r: Record): (s: string)
    requires WellFormed(r)
    ensures r.OrderReplace? ==> s == "unused message type"
  {
    if r.OrderReplace? then "unused message type"
    else if r.OrderExecutedWithPrice? then
      ExecutionRenderable(r);
      // `OrderExecuted::to_string` prints this record's own type byte.
      var executed := Render('C', ExecutionFormat, ExecutionValues(r.executed));
      CString(Join([executed, SignedText(r.tradePrice), [r.occurredAtCross], [r.printable]]))
    else
      RecordRenderable(r);
      Render(Code(TypeOf(r)), Format(TypeOf(r)), Values(r))
  }

  /** The fields of an `OrderExecutedWithPrice` record, as those of its
      execution followed by the three it adds. */
  lemma ExecutedWithPriceValues(e: Execution, price: Price, cross: Char, printable: Char)
    ensures Values(Record.OrderExecutedWithPrice(e, price, cross, printable))
         == ExecutionValues(e) + [SignedValue(price), CharValue(cross), CharValue(printable)]
  {
  }

  lemma ExecutionRenderable(r: Record)
    requires WellFormed(r) && r.OrderExecutedWithPrice?
    ensures Renderable(ExecutionFormat, ExecutionValues(r.executed))
  {
    RecordRenderable(r);
    var tail := [SignedValue(r.tradePrice), CharValue(r.occurredAtCross), CharValue(r.printable)];
    ExecutedWithPriceValues(r.executed, r.tradePrice, r.occurredAtCross, r.printable);
    RenderablePrefix(ExecutionFormat, WithPriceFormat, ExecutionValues(r.executed), tail);
  }

  lemma {:induction false} RenderablePrefix(f: seq<Conversion>, g: seq<Conversion>, vs: seq<Value>, ws: seq<Value>)
    requires Renderable(f + g, vs + ws) && |f| == |vs|
    ensures Renderable(f, vs) && Renderable(g, ws)
  {
    if |f| > 0 {
      TailOfAppend(f, g);
      TailOfAppend(vs, ws);
      RenderablePrefix(f[1..], g, vs[1..], ws);
    } else {
      assert f + g == g && vs + ws == ws;
    }
  }

  /** A value whose text holds no comma and whose character is neither a
      comma nor a NUL. */
  predicate CleanValue(v: Value)
  {
    match v
    case CharValue(c) => c != ',' && c != Nul
    case TextValue(t) => forall j :: 0 <= j < |t| ==> t[j] != ','
    case _ => true
  }

  /** The printed fields of `vs` are clean. */
  predicate Clean(format: seq<Conversion>, vs: seq<Value>)
  {
    forall i :: 0 <= i < |format| && i < |vs| && format[i] != Omitted ==> CleanValue(vs[i])
  }

  lemma ColumnPlain(c: Conversion, v: Value)
    requires c != Omitted && Matches(c, v) && CleanValue(v)
    ensures Plain(Column(c, v))
  {
    if c == Text {
      TextColumn(v);
      var s := Column(c, v);
      forall j | 0 <= j < |s|
        ensures s[j] != ','
      {
        assert s[j] == TrimRight(v.s)[j] == v.s[j];
      }
    }
  }

  /** The columns of clean fields hold no comma and no NUL. */
  lemma {:induction false} ColumnsPlain(format: seq<Conversion>, vs: seq<Value>)
    requires Renderable(format, vs) && Clean(format, vs)
    ensures forall k :: 0 <= k < |Columns(format, vs)| ==> Plain(Columns(format, vs)[k])
  {
    if |format| > 0 {
      assert Clean(format[1..], vs[1..]);
      ColumnsPlain(format[1..], vs[1..]);
      if format[0] != Omitted {
        ColumnPlain(format[0], vs[0]);
      }
    }
  }

  /** With no field left out, column `i` is field `i` through its
      conversion. */
  lemma {:induction false} ColumnsOfEveryField(format: seq<Conversion>, vs: seq<Value>)
    requires Renderable(format, vs)
    requires forall i :: 0 <= i < |format| ==> format[i] != Omitted
    ensures |Columns(format, vs)| == |format|
    ensures forall i :: 0 <= i < |format| ==>
      Matches(format[i], vs[i]) && Columns(format, vs)[i] == Column(format[i], vs[i])
  {
    if |format| > 0 {
      ColumnsOfEveryField(format[1..], vs[1..]);
      var tail := Columns(format[1..], vs[1..]);
      assert Columns(format, vs) == [Column(format[0], vs[0])] + tail;
      forall i | 1 <= i < |format|
        ensures Matches(format[i], vs[i]) && Columns(format, vs)[i] == Column(format[i], vs[i])
      {
        assert format[1..][i - 1] == format[i] && vs[1..][i - 1] == vs[i];
        assert Columns(format, vs)[i] == tail[i - 1];
      }
    }
  }

  lemma {:induction false} RenderableAppend(f: seq<Conversion>, g: seq<Conversion>, vs: seq<Value>, ws: seq<Value>)
    requires Renderable(f, vs) && Renderable(g, ws)
    ensures Renderable(f + g, vs + ws)
  {
    if |f| > 0 {
      TailOfAppend(f, g);
      TailOfAppend(vs, ws);
      RenderableAppend(f[1..], g, vs[1..], ws);
    } else {
      assert f + g == g && vs + ws == ws;
    }
  }

  /** The columns of two formats side by side are the columns of the first
      followed by those of the second. */
  lemma {:induction false} ColumnsAppend(f: seq<Conversion>, g: seq<Conversion>, vs: seq<Value>, ws: seq<Value>)
    requires Renderable(f, vs) && Renderable(g, ws) && Renderable(f + g, vs + ws)
    ensures Columns(f + g, vs + ws) == Columns(f, vs) + Columns(g, ws)
  {
    if |f| > 0 {
      TailOfAppend(f, g);
      TailOfAppend(vs, ws);
      ColumnsAppend(f[1..], g, vs[1..], ws);
      var head := Printed(f[0], vs[0]);
      var rest := Columns(f[1..], vs[1..]);
      AppendAssociates(head, rest, Columns(g, ws));
    } else {
      assert f + g == g && vs + ws == ws;
    }
  }

  /** The text after the type character of a rendering of `columns`. */
  lemma JoinAfterCode(code: char, columns: seq<string>)
    ensures Join([[code]] + columns) == [code] + (if |columns| == 0 then "" else "," + Join(columns))
  {
    if |columns| > 0 {
      JoinAppend([[code]], columns);
    }
  }

  /** A rendering starts with its type character, and two renderings of
      the same fields differ in that character only. */
  lemma RenderCode(code: char, other: char, format: seq<Conversion>, vs: seq<Value>)
    requires Renderable(format, vs) && code != Nul && other != Nul
    ensures |Render(code, format, vs)| >= 1 && Render(code, format, vs)[0] == code
    ensures Render(other, format, vs) == [other] + Render(code, format, vs)[1..]
  {
    var columns := Columns(format, vs);
    var rest := if |columns| == 0 then "" else "," + Join(columns);
    JoinAfterCode(code, columns);
    JoinAfterCode(other, columns);
    CStringAppend([code], rest);
    CStringAppend([other], rest);
  }

  /** Clean fields render as their columns joined, with nothing cut, and
      splitting the text at its commas gives back the type character and
      the columns. */
  lemma CleanRender(code: char, format: seq<Conversion>, vs: seq<Value>)
    requires Renderable(format, vs) && Clean(format, vs)
    requires code != ',' && code != Nul
    ensures Render(code, format, vs) == Join([[code]] + Columns(format, vs))
    ensures Split(Render(code, format, vs)) == [[code]] + Columns(format, vs)
  {
    var columns := [[code]] + Columns(format, vs);
    ColumnsPlain(format, vs);
    assert forall k :: 0 <= k < |columns| ==> Plain(columns[k]) by {
      forall k | 0 <= k < |columns|
        ensures Plain(columns[k])
      {
        if k > 0 {
          assert columns[k] == Columns(format, vs)[k - 1];
        }
      }
    }
    JoinWithoutNul(columns);
    CStringOfNulFree(Join(columns));
    SplitJoin(columns);
  }

  /** Every rendered record but `OrderReplace` starts with its type
      character. */
  lemma RenderedCode(r: Record)
    requires WellFormed(r) && !r.OrderReplace?
    ensures |ToString(r)| >= 1 && ToString(r)[0] == Code(TypeOf(r))
  {
    RecordRenderable(r);
    if r.OrderExecutedWithPrice? {
      ExecutionRenderable(r);
      var executed := Render('C', ExecutionFormat, ExecutionValues(r.executed));
      RenderCode('C', 'C', ExecutionFormat, ExecutionValues(r.executed));
      var text := Join([executed, SignedText(r.tradePrice), [r.occurredAtCross], [r.printable]]);
      assert text[0] == 'C';
    } else {
      CodesIdentifyTypes(TypeOf(r));
      RenderCode(Code(TypeOf(r)), Code(TypeOf(r)), Format(TypeOf(r)), Values(r));
    }
  }

  /** The fields of an `OrderExecutedWithPrice` record that come from
      `OrderExecuted` make a well-formed `OrderExecuted` record. */
  lemma ExecutedWellFormed(r: Record)
    requires WellFormed(r) && r.OrderExecutedWithPrice?
    ensures WellFormed(Record.OrderExecuted(r.executed))
  {
    var tail := [SignedValue(r.tradePrice), CharValue(r.occurredAtCross), CharValue(r.printable)];
    assert Values(r) == ExecutionValues(r.executed) + tail;
    forall i | 0 <= i < |ExecutionLayout|
      ensures Fits(ExecutionLayout[i], ExecutionValues(r.executed)[i])
    {
      assert OrderExecutedWithPriceLayout[i] == ExecutionLayout[i];
      assert Values(r)[i] == ExecutionValues(r.executed)[i];
    }
  }

  /** An `OrderExecuted` record renders through the execution format. */
  lemma ExecutedText(e: Execution)
    requires WellFormed(Record.OrderExecuted(e))
    ensures Renderable(ExecutionFormat, ExecutionValues(e))
    ensures ToString(Record.OrderExecuted(e)) == Render('E', ExecutionFormat, ExecutionValues(e))
  {
    var r := Record.OrderExecuted(e);
    RecordRenderable(r);
    assert TypeOf(r) == MessageType.OrderExecuted && Values(r) == ExecutionValues(e);
    assert Format(MessageType.OrderExecuted) == ExecutionFormat;
  }

  /** The columns of a format depend only on the fields it prints. */
  lemma {:induction false} ColumnsOfPrinted(format: seq<Conversion>, vs: seq<Value>, ws: seq<Value>)
    requires Renderable(format, vs) && Renderable(format, ws)
    requires forall i :: 0 <= i < |format| && format[i] != Omitted ==> vs[i] == ws[i]
    ensures Columns(format, vs) == Columns(format, ws)
  {
    if |format| > 0 {
      forall i | 0 <= i < |format[1..]| && format[1..][i] != Omitted
        ensures vs[1..][i] == ws[1..][i]
      {
        assert format[1..][i] == format[i + 1];
      }
      ColumnsOfPrinted(format[1..], vs[1..], ws[1..]);
      if format[0] != Omitted {
        assert vs[0] == ws[0];
      }
    }
  }

  /** The fields `OrderExecuted::to_string` prints: all but the two
      reserved ones at the end. */
  const ExecutionPrinted: seq<DataType> := ExecutionLayout[..7]

  /** How many bytes of a message of type `t`, its type byte included,
      `to_string` reads: the whole record, except that `OrderExecuted`
      prints nothing after its combo group id and `OrderReplace` prints no
      field at all. */
  function TextExtent(t: MessageType): (n: nat)
    requires t != MessageType.EndOfSnapshot
    ensures 1 <= n <= RecordSize(t)
  {
    if t == MessageType.OrderReplace then 1
    else if t == MessageType.OrderExecuted then
      ExecutedExtent();
      1 + Size(ExecutionPrinted)
    else RecordSize(t)
  }

  /** `OrderExecuted::to_string` reads 38 of the record's 52 bytes. */
  lemma ExecutedExtent()
    ensures ExecutionLayout == ExecutionPrinted + [ReservedField, ReservedField]
    ensures Size(ExecutionPrinted) == 37 && RecordSize(MessageType.OrderExecuted) == 52
  {
    var reserved := [ReservedField, ReservedField];
    assert ExecutionLayout == ExecutionPrinted + reserved;
    SizeAppend(ExecutionPrinted, reserved);
    assert Size([ReservedField]) == 7 by {
      assert [ReservedField][1..] == [];
    }
    assert reserved[1..] == [ReservedField];
    ExecutionLayoutSize();
  }

  /** `data` run on with spaces to a whole record of type `t`: the bytes
      `to_string` does not read may lie past the end of the frame, and any
      bytes stand in for them. */
  function Completed(t: MessageType, data: seq<byte>): (full: seq<byte>)
    requires t != MessageType.EndOfSnapshot
    ensures |data| <= |full| && full[..|data|] == data && |full| >= RecordSize(t)
    ensures |data| >= RecordSize(t) ==> full == data
  {
    if |data| >= RecordSize(t) then data else data + seq(RecordSize(t) - |data|, _ => ' ' as int)
  }

  /** A completed message keeps every prefix of its bytes. */
  lemma CompletedPrefix(t: MessageType, data: seq<byte>, n: nat)
    requires t != MessageType.EndOfSnapshot && n <= |data|
    ensures Completed(t, data)[..n] == data[..n]
  {
    var full := Completed(t, data);
    assert full[..n] == full[..|data|][..n];
  }

  /** Two executions that differ at most in their reserved fields render
      the same `OrderExecuted` text. */
  lemma ExecutedTextIgnoresReserved(e: Execution, f: Execution)
    requires WellFormed(Record.OrderExecuted(e)) && WellFormed(Record.OrderExecuted(f))
    requires e.(reserved1 := f.reserved1, reserved2 := f.reserved2) == f
    ensures ToString(Record.OrderExecuted(e)) == ToString(Record.OrderExecuted(f))
  {
    ExecutedText(e);
    ExecutedText(f);
    ExecutionColumns(e, f);
  }

  /** The columns of an execution's values skip its reserved fields. */
  lemma ExecutionColumns(e: Execution, f: Execution)
    requires Renderable(ExecutionFormat, ExecutionValues(e)) && Renderable(ExecutionFormat, ExecutionValues(f))
    requires e.(reserved1 := f.reserved1, reserved2 := f.reserved2) == f
    ensures Columns(ExecutionFormat, ExecutionValues(e)) == Columns(ExecutionFormat, ExecutionValues(f))
  {
    var vs, ws := ExecutionValues(e), ExecutionValues(f);
    forall i | 0 <= i < |ExecutionFormat| && ExecutionFormat[i] != Omitted
      ensures vs[i] == ws[i]
    {
    }
    ColumnsOfPrinted(ExecutionFormat, vs, ws);
  }

  /** The fields of a layout's head are read from the head's bytes alone. */
  lemma ReadFieldsHead(a: seq<DataType>, c: seq<DataType>, x: seq<byte>)
    requires |x| >= Size(a + c)
    ensures Size(a) <= |x|
    ensures ReadFields(a + c, x)[..|a|] == ReadFields(a, x[..Size(a)])
  {
    ReadFieldsPrefix(a, c, x);
    ReadFieldsTake(a, x);
  }

  /** An execution's fields before the reserved ones come from the first
      seven values. */
  lemma ExecutionOfHead(vs: seq<Value>, ws: seq<Value>)
    requires |vs| >= 7 && |ws| >= 7 && vs[..7] == ws[..7]
    ensures var e, f := ExecutionOf(vs), ExecutionOf(ws);
            e.(reserved1 := f.reserved1, reserved2 := f.reserved2) == f
  {
    assert vs[0] == ws[0] && vs[1] == ws[1] && vs[2] == ws[2] && vs[3] == ws[3] by {
      assert vs[..7][0] == ws[..7][0] && vs[..7][1] == ws[..7][1] && vs[..7][2] == ws[..7][2] && vs[..7][3] == ws[..7][3];
    }
    assert vs[4] == ws[4] && vs[5] == ws[5] && vs[6] == ws[6] by {
      assert vs[..7][4] == ws[..7][4] && vs[..7][5] == ws[..7][5] && vs[..7][6] == ws[..7][6];
    }
  }

  /** The values of an `OrderExecuted` message before its reserved fields
      come from its first 38 bytes. */
  lemma ExecutedReadsPrinted(a: seq<byte>, b: seq<byte>)
    requires |a| >= RecordSize(MessageType.OrderExecuted) && |b| >= RecordSize(MessageType.OrderExecuted)
    requires a[..TextExtent(MessageType.OrderExecuted)] == b[..TextExtent(MessageType.OrderExecuted)]
    ensures |ReadFields(ExecutionLayout, a[1..])| == |ReadFields(ExecutionLayout, b[1..])| == 9
    ensures ReadFields(ExecutionLayout, a[1..])[..7] == ReadFields(ExecutionLayout, b[1..])[..7]
  {
    ExecutedExtent();
    var x, y := a[1..], b[1..];
    ReadFieldsHead(ExecutionPrinted, [ReservedField, ReservedField], x);
    ReadFieldsHead(ExecutionPrinted, [ReservedField, ReservedField], y);
    assert x[..37] == a[..38][1..] && y[..37] == b[..38][1..];
  }

  /** An `OrderExecuted` text depends on no byte after its first 38: the
      reserved fields are not printed. */
  lemma ExecutedTextReadsPrinted(a: seq<byte>, b: seq<byte>)
    requires |a| >= RecordSize(MessageType.OrderExecuted) && a[0] == 'E' as int
    requires |b| >= RecordSize(MessageType.OrderExecuted) && b[0] == 'E' as int
    requires a[..TextExtent(MessageType.OrderExecuted)] == b[..TextExtent(MessageType.OrderExecuted)]
    ensures WellFormed(ReadRecord(MessageType.OrderExecuted, a)) && WellFormed(ReadRecord(MessageType.OrderExecuted, b))
    ensures ToString(ReadRecord(MessageType.OrderExecuted, a)) == ToString(ReadRecord(MessageType.OrderExecuted, b))
  {
    var t := MessageType.OrderExecuted;
    EncodeRead(t, a);
    EncodeRead(t, b);
    var ra, rb := ReadRecord(t, a), ReadRecord(t, b);
    assert ra == Record.OrderExecuted(ra.executed) && rb == Record.OrderExecuted(rb.executed);
    ReadExecuted(a);
    ReadExecuted(b);
    ExecutedReadsPrinted(a, b);
    ExecutionOfHead(ReadFields(ExecutionLayout, a[1..]), ReadFields(ExecutionLayout, b[1..]));
    ExecutedTextIgnoresReserved(ra.executed, rb.executed);
  }

  /** A record's text depends on no byte of the message past the bytes
      `to_string` reads. */
  lemma TextReadsExtent(t: MessageType, a: seq<byte>, b: seq<byte>)
    requires t != MessageType.EndOfSnapshot
    requires |a| >= RecordSize(t) && a[0] == Code(t) as int
    requires |b| >= RecordSize(t) && b[0] == Code(t) as int
    requires a[..TextExtent(t)] == b[..TextExtent(t)]
    ensures WellFormed(ReadRecord(t, a)) && WellFormed(ReadRecord(t, b))
    ensures ToString(ReadRecord(t, a)) == ToString(ReadRecord(t, b))
  {
    EncodeRead(t, a);
    EncodeRead(t, b);
    if t == MessageType.OrderExecuted {
      ExecutedTextReadsPrinted(a, b);
    } else if t != MessageType.OrderReplace {
      WholeRecordRead(t, a, b);
    }
  }

  /** Records whose text reads every field are equal when their bytes are. */
  lemma WholeRecordRead(t: MessageType, a: seq<byte>, b: seq<byte>)
    requires t != MessageType.EndOfSnapshot
    requires |a| >= RecordSize(t) && a[0] == Code(t) as int
    requires |b| >= RecordSize(t) && b[0] == Code(t) as int
    requires a[..RecordSize(t)] == b[..RecordSize(t)]
    ensures ReadRecord(t, a) == ReadRecord(t, b)
  {
    ReadRecordPrefix(t, a);
    ReadRecordPrefix(t, b);
  }

  /** `OrderExecutedWithPrice` renders as the `OrderExecuted` text of its
      execution, under its own type character, followed by the trade price,
      the cross flag and the printable flag. */
  lemma ExecutedWithPriceText(r: Record)
    requires WellFormed(r) && r.OrderExecutedWithPrice?
    ensures WellFormed(Record.OrderExecuted(r.executed))
    ensures ToString(r)
         == ['C'] + ToString(Record.OrderExecuted(r.executed))[1..] + "," + SignedText(r.tradePrice) + ","
            + CString([r.occurredAtCross] + "," + [r.printable])
  {
    ExecutedWellFormed(r);
    ExecutedText(r.executed);
    var vs := ExecutionValues(r.executed);
    var executed := Render('C', ExecutionFormat, vs);
    RenderCode('E', 'C', ExecutionFormat, vs);
    assert ToString(r) == CString(Join([executed, SignedText(r.tradePrice), [r.occurredAtCross], [r.printable]]));
    CStringOfTwoAndTwo(executed, SignedText(r.tradePrice), r.occurredAtCross, r.printable);
  }

  /** The printed fields of an `OrderExecutedWithPrice` record are clean
      when those of the record as a whole are. */
  lemma ExecutionClean(r: Record)
    requires WellFormed(r) && r.OrderExecutedWithPrice?
    requires Clean(Format(MessageType.OrderExecutedWithPrice), Values(r))
    ensures Clean(ExecutionFormat, ExecutionValues(r.executed))
    ensures CleanValue(CharValue(r.occurredAtCross)) && CleanValue(CharValue(r.printable))
  {
    var vs := ExecutionValues(r.executed);
    var tail := [SignedValue(r.tradePrice), CharValue(r.occurredAtCross), CharValue(r.printable)];
    ExecutedWithPriceValues(r.executed, r.tradePrice, r.occurredAtCross, r.printable);
    var format := ExecutionFormat + WithPriceFormat;
    forall i | 0 <= i < |ExecutionFormat| && ExecutionFormat[i] != Omitted
      ensures CleanValue(vs[i])
    {
      assert format[i] == ExecutionFormat[i] && (vs + tail)[i] == vs[i];
    }
    assert format[10] == Character && (vs + tail)[10] == CharValue(r.occurredAtCross);
    assert format[11] == Character && (vs + tail)[11] == CharValue(r.printable);
  }

  /** Clean fields rendered by one `sprintf` and used as the first column
      of a second one that prints further fields: the same text as one
      `sprintf` of all the fields. */
  lemma RenderNested(code: char, f: seq<Conversion>, vs: seq<Value>, g: seq<Conversion>, ws: seq<Value>)
    requires Renderable(f, vs) && Clean(f, vs) && code != ',' && code != Nul
    requires Renderable(g, ws) && |g| > 0 && forall i :: 0 <= i < |g| ==> g[i] != Omitted
    ensures Renderable(f + g, vs + ws)
    ensures CString(Join([Render(code, f, vs)] + Columns(g, ws))) == Render(code, f + g, vs + ws)
  {
    RenderableAppend(f, g, vs, ws);
    var head := [[code]] + Columns(f, vs);
    var last := Columns(g, ws);
    assert Render(code, f, vs) == Join(head) by {
      CleanRender(code, f, vs);
    }
    assert |last| > 0 by {
      ColumnsOfEveryField(g, ws);
    }
    assert Columns(f + g, vs + ws) == Columns(f, vs) + last by {
      ColumnsAppend(f, g, vs, ws);
    }
    JoinNested(head, last);
    AppendAssociates([[code]], Columns(f, vs), last);
  }

  lemma ExecutedWithPriceJoin(e: Execution, price: Price, cross: Char, printable: Char)
    requires Renderable(ExecutionFormat, ExecutionValues(e)) && Clean(ExecutionFormat, ExecutionValues(e))
    requires CleanValue(CharValue(cross)) && CleanValue(CharValue(printable))
    ensures Renderable(ExecutionFormat + WithPriceFormat,
      ExecutionValues(e) + [SignedValue(price), CharValue(cross), CharValue(printable)])
    ensures CString(Join([Render('C', ExecutionFormat, ExecutionValues(e)), SignedText(price), [cross], [printable]]))
         == Render('C', ExecutionFormat + WithPriceFormat,
              ExecutionValues(e) + [SignedValue(price), CharValue(cross), CharValue(printable)])
  {
    var tail := [SignedValue(price), CharValue(cross), CharValue(printable)];
    WithPriceColumns(price, cross, printable);
    RenderNested('C', ExecutionFormat, ExecutionValues(e), WithPriceFormat, tail);
  }

  /** The columns `OrderExecutedWithPrice` adds: the price, the cross flag
      and the printable flag. */
  lemma WithPriceColumns(price: Price, cross: Char, printable: Char)
    ensures Renderable(WithPriceFormat, [SignedValue(price), CharValue(cross), CharValue(printable)])
    ensures Columns(WithPriceFormat, [SignedValue(price), CharValue(cross), CharValue(printable)])
         == [SignedText(price), [cross], [printable]]
  {
    var tail := [SignedValue(price), CharValue(cross), CharValue(printable)];
    assert Renderable(WithPriceFormat[3..], tail[3..]);
    assert Renderable(WithPriceFormat[2..], tail[2..]);
    assert Renderable(WithPriceFormat[1..], tail[1..]);
    ColumnsOfEveryField(WithPriceFormat, tail);
  }

  /** Without a NUL to cut it, the `OrderExecutedWithPrice` text is one
      `sprintf` of all its printed fields. */
  lemma ExecutedWithPriceRender(r: Record)
    requires WellFormed(r) && r.OrderExecutedWithPrice?
    requires Clean(Format(MessageType.OrderExecutedWithPrice), Values(r))
    ensures Renderable(Format(MessageType.OrderExecutedWithPrice), Values(r))
    ensures ToString(r) == Render('C', Format(MessageType.OrderExecutedWithPrice), Values(r))
  {
    ExecutionRenderable(r);
    ExecutionClean(r);
    ExecutedWithPriceValues(r.executed, r.tradePrice, r.occurredAtCross, r.printable);
    ExecutedWithPriceJoin(r.executed, r.tradePrice, r.occurredAtCross, r.printable);
  }

  /** A rendering whose printed characters and texts hold no comma or NUL
      splits at its commas into the type character and one column per
      printed field, in declaration order. */
  lemma RenderedColumns(r: Record)
    requires WellFormed(r) && !r.OrderReplace?
    requires Clean(Format(TypeOf(r)), Values(r))
    ensures Renderable(Format(TypeOf(r)), Values(r))
    ensures Split(ToString(r)) == [[Code(TypeOf(r))]] + Columns(Format(TypeOf(r)), Values(r))
  {
    RecordRenderable(r);
    CodesIdentifyTypes(TypeOf(r));
    if r.OrderExecutedWithPrice? {
      ExecutedWithPriceRender(r);
    }
    CleanRender(Code(TypeOf(r)), Format(TypeOf(r)), Values(r));
  }
}

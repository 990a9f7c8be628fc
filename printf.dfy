/** The text the record renderings produce: the `sprintf` conversions they
    use (`%c`, `%u`/`%lu`, `%d`, `%016lX`, `%s`) and the comma that separates
    the columns of a rendering. */
module Printf {

  datatype Conversion =
    | Character     // %c
    | Unsigned      // %u, for a value of at most 32 bits
    | UnsignedLong  // %lu, for a 64-bit value
    | Signed        // %d
    | Hex16         // %016lX
    | Text          // %s of the field after alpha_to_string
    | Omitted       // a field the rendering leaves out

  predicate IsDigit(c: char)
  {
    '0' <= c <= '9' || 'A' <= c <= 'F'
  }

  /** The digit character for `k`, upper case above nine. */
  function Digit(k: nat): (c: char)
    requires k < 16
    ensures IsDigit(c) && DigitValue(c) == k
    ensures k < 10 <==> '0' <= c <= '9'
  {
    if k < 10 then ('0' as int + k) as char else ('A' as int + k - 10) as char
  }

  /** The value of a digit character ('0'-'9', 'A'-'F'). */
  function DigitValue(c: char): nat
  {
    if '0' <= c <= '9' then c as nat - '0' as nat
    else if 'A' <= c <= 'F' then c as nat - 'A' as nat + 10
    else 0
  }

  function ParseBase(base: nat, s: string): nat
  {
    if |s| == 0 then 0 else ParseBase(base, s[..|s| - 1]) * base + DigitValue(s[|s| - 1])
  }

  function Pow16(n: nat): (r: nat)
    ensures r >= 1
  {
    if n == 0 then 1 else 16 * Pow16(n - 1)
  }

  /** `%u`: the decimal digits of `n`, without leading zeros. */
  function DecimalText(n: nat): (s: string)
    ensures |s| >= 1 && (|s| > 1 ==> s[0] != '0')
    ensures forall i :: 0 <= i < |s| ==> '0' <= s[i] <= '9'
    ensures ParseBase(10, s) == n
  {
    if n < 10 then [Digit(n)]
    else
      var s := DecimalText(n / 10) + [Digit(n % 10)];
      assert s[..|s| - 1] == DecimalText(n / 10);
      s
  }

  /** What `%u` and `%lu` print: at least one decimal digit, and no leading
      zero unless the number is zero. */
  predicate Decimal(s: string)
  {
    |s| >= 1 && (|s| > 1 ==> s[0] != '0') && forall i :: 0 <= i < |s| ==> '0' <= s[i] <= '9'
  }

  lemma {:induction false} LeadingDigit(s: string)
    requires |s| >= 1 && forall i :: 0 <= i < |s| ==> '0' <= s[i] <= '9'
    ensures ParseBase(10, s) >= DigitValue(s[0])
  {
    if |s| > 1 {
      var p := s[..|s| - 1];
      assert p[0] == s[0];
      LeadingDigit(p);
    }
  }

  /** `DecimalText` is the only `Decimal` text of a number: the digits `%u`
      prints are determined by the value. */
  lemma {:induction false} DecimalUnique(s: string)
    requires Decimal(s)
    ensures s == DecimalText(ParseBase(10, s))
  {
    var d := s[|s| - 1];
    var p := s[..|s| - 1];
    DecimalDigit(d);
    if |s| == 1 {
      assert s == [d] && p == [];
    } else {
      DecimalHead(s);
      DecimalUnique(p);
      var q, k := ParseBase(10, p), DigitValue(d);
      LastDigit(q, k);
      assert s == p + [d];
    }
  }

  lemma DecimalDigit(c: char)
    requires '0' <= c <= '9'
    ensures DigitValue(c) < 10 && Digit(DigitValue(c)) == c
  {
  }

  /** A decimal text of more than one digit, without its last digit, is a
      decimal text of a positive number. */
  lemma DecimalHead(s: string)
    requires Decimal(s) && |s| > 1
    ensures Decimal(s[..|s| - 1]) && ParseBase(10, s[..|s| - 1]) >= 1
  {
    var p := s[..|s| - 1];
    assert p[0] == s[0];
    LeadingDigit(p);
  }

  lemma LastDigit(q: nat, k: nat)
    requires k < 10
    ensures (q * 10 + k) / 10 == q && (q * 10 + k) % 10 == k
  {
  }

  /** `%d`: a minus sign for a negative value, then its decimal digits. */
  function SignedText(i: int): (s: string)
    ensures |s| >= 1
    ensures forall j :: 0 <= j < |s| ==> s[j] == '-' || '0' <= s[j] <= '9'
    ensures i < 0 <==> s[0] == '-'
    ensures i < 0 ==> ParseBase(10, s[1..]) == -i
    ensures i >= 0 ==> ParseBase(10, s) == i
    ensures Decimal(if i < 0 then s[1..] else s)
  {
    if i < 0 then
      var s := "-" + DecimalText(-i);
      assert s[1..] == DecimalText(-i);
      s
    else DecimalText(i)
  }

  /** Exactly `width` upper-case hexadecimal digits of `n`, zero-padded. */
  function HexText(n: nat, width: nat): (s: string)
    requires n < Pow16(width)
    ensures |s| == width
    ensures forall i :: 0 <= i < |s| ==> IsDigit(s[i])
    ensures ParseBase(16, s) == n
  {
    if width == 0 then []
    else
      assert n / 16 < Pow16(width - 1);
      var s := HexText(n / 16, width - 1) + [Digit(n % 16)];
      assert s[..|s| - 1] == HexText(n / 16, width - 1);
      s
  }

  lemma Pow16Of16()
    ensures Pow16(16) == 0x1_0000_0000_0000_0000
  {
    assert Pow16(4) == 0x1_0000;
    assert Pow16(8) == 0x1_0000_0000 by {
      assert Pow16(8) == 0x1_0000 * Pow16(4);
    }
    assert Pow16(16) == 0x1_0000_0000 * Pow16(8) by {
      assert Pow16(16) == 0x1_0000 * Pow16(12);
      assert Pow16(12) == 0x1_0000 * Pow16(8);
    }
  }

  /** `%016lX` of a 64-bit value: always sixteen digits. */
  function Hex16Text(n: nat): (s: string)
    requires n < 0x1_0000_0000_0000_0000
    ensures |s| == 16 && ParseBase(16, s) == n
    ensures forall j :: 0 <= j < |s| ==> IsDigit(s[j])
  {
    Pow16Of16();
    HexText(n, 16)
  }

  const Nul: char := 0 as char

  /** The C string held by a buffer: everything before its first NUL. This is
      what `%s` prints of a `c_str()` and what a `std::string` keeps when it
      is built from a `char` buffer. */
  function CString(s: string): (t: string)
    ensures |t| <= |s| && t == s[..|t|]
    ensures forall j :: 0 <= j < |t| ==> t[j] != Nul
    ensures |t| < |s| ==> s[|t|] == Nul
  {
    if |s| == 0 || s[0] == Nul then [] else [s[0]] + CString(s[1..])
  }

  /** A string without a NUL is its own C string. */
  lemma CStringOfNulFree(s: string)
    requires forall j :: 0 <= j < |s| ==> s[j] != Nul
    ensures CString(s) == s
  {
  }

  /** The C string of a NUL-free prefix followed by more text. */
  lemma {:induction false} CStringAppend(a: string, b: string)
    requires forall j :: 0 <= j < |a| ==> a[j] != Nul
    ensures CString(a + b) == a + CString(b)
  {
    if |a| > 0 {
      assert (a + b)[0] == a[0] && (a + b)[1..] == a[1..] + b;
      CStringAppend(a[1..], b);
    } else {
      assert a + b == b;
    }
  }

  /** The columns of a rendering joined with commas. */
  function Join(columns: seq<string>): string
  {
    if |columns| == 0 then ""
    else if |columns| == 1 then columns[0]
    else columns[0] + "," + Join(columns[1..])
  }

  /** Joining two non-empty lists of columns puts one comma between them. */
  lemma {:induction false} JoinAppend(a: seq<string>, b: seq<string>)
    requires |a| > 0 && |b| > 0
    ensures Join(a + b) == Join(a) + "," + Join(b)
  {
    if |a| == 1 {
      assert (a + b)[1..] == b;
    } else {
      assert (a + b)[1..] == a[1..] + b;
      JoinAppend(a[1..], b);
    }
  }

  /** `s` holds neither a comma nor a NUL. */
  predicate Plain(s: string)
  {
    forall j :: 0 <= j < |s| ==> s[j] != ',' && s[j] != Nul
  }

  /** Columns without a NUL join into a text without a NUL. */
  lemma {:induction false} JoinWithoutNul(columns: seq<string>)
    requires forall i :: 0 <= i < |columns| ==> Plain(columns[i])
    ensures forall j :: 0 <= j < |Join(columns)| ==> Join(columns)[j] != Nul
  {
    if |columns| > 1 {
      JoinWithoutNul(columns[1..]);
      var head := columns[0] + ",";
      assert Join(columns) == head + Join(columns[1..]);
      assert Plain(columns[0]);
      forall j | 0 <= j < |Join(columns)|
        ensures Join(columns)[j] != Nul
      {
        if j < |head| {
          assert Join(columns)[j] == head[j];
        } else {
          assert Join(columns)[j] == Join(columns[1..])[j - |head|];
        }
      }
    } else if |columns| == 1 {
      assert Plain(columns[0]);
    }
  }

  /** The columns of a comma-joined text, as a reader splits it. */
  function Split(s: string): (columns: seq<string>)
    ensures |columns| >= 1
  {
    if |s| == 0 then [""]
    else if s[0] == ',' then [""] + Split(s[1..])
    else
      var rest := Split(s[1..]);
      [[s[0]] + rest[0]] + rest[1..]
  }

  /** Text without a comma followed by more text: the first column grows. */
  lemma {:induction false} SplitPrefix(a: string, b: string)
    requires forall j :: 0 <= j < |a| ==> a[j] != ','
    ensures Split(a + b) == [a + Split(b)[0]] + Split(b)[1..]
  {
    if |a| > 0 {
      assert (a + b)[0] == a[0] && (a + b)[1..] == a[1..] + b;
      SplitPrefix(a[1..], b);
      var rest := Split(a[1..] + b);
      assert rest[0] == a[1..] + Split(b)[0] && rest[1..] == Split(b)[1..];
      assert [a[0]] + rest[0] == a + Split(b)[0];
    } else {
      var columns := Split(b);
      assert a + b == b && a + columns[0] == columns[0];
      assert columns == [columns[0]] + columns[1..];
    }
  }

  /** A column without a comma, a comma and more text: the column is split
      off first. */
  lemma SplitColumn(a: string, b: string)
    requires forall j :: 0 <= j < |a| ==> a[j] != ','
    ensures Split(a + "," + b) == [a] + Split(b)
  {
    SplitPrefix(a, "," + b);
    assert a + "," + b == a + ("," + b);
    assert ("," + b)[1..] == b;
    assert a + "" == a;
  }

  /** Splitting joined columns that hold no comma gives the columns back. */
  lemma {:induction false} SplitJoin(columns: seq<string>)
    requires |columns| >= 1
    requires forall i, j :: 0 <= i < |columns| && 0 <= j < |columns[i]| ==> columns[i][j] != ','
    ensures Split(Join(columns)) == columns
  {
    if |columns| == 1 {
      SplitPrefix(columns[0], "");
      assert columns[0] + "" == columns[0];
    } else {
      var rest := Join(columns[1..]);
      SplitJoin(columns[1..]);
      assert Join(columns) == columns[0] + ("," + rest);
      SplitPrefix(columns[0], "," + rest);
      assert ("," + rest)[1..] == rest;
      assert columns[0] + "" == columns[0];
    }
  }

  /** Four columns joined. */
  lemma JoinFour(a: string, b: string, c: string, d: string)
    ensures Join([a, b, c, d]) == a + "," + b + "," + c + "," + d
  {
    assert [a, b, c, d][1..] == [b, c, d] && [b, c, d][1..] == [c, d] && [c, d][1..] == [d];
    assert Join([c, d]) == c + "," + d;
    assert Join([b, c, d]) == b + "," + (c + "," + d);
    assert Join([a, b, c, d]) == a + "," + (b + "," + (c + "," + d));
  }

  predicate NulFree(s: string)
  {
    forall j :: 0 <= j < |s| ==> s[j] != Nul
  }

  lemma NulFreeAppend(a: string, b: string)
    requires NulFree(a) && NulFree(b)
    ensures NulFree(a + b)
  {
    forall j | 0 <= j < |a + b|
      ensures (a + b)[j] != Nul
    {
      if j < |a| {
        assert (a + b)[j] == a[j];
      } else {
        assert (a + b)[j] == b[j - |a|];
      }
    }
  }

  /** A `sprintf` of two NUL-free columns and two characters: the text is
      cut only inside the characters. */
  lemma CStringOfTwoAndTwo(a: string, b: string, x: char, y: char)
    requires NulFree(a) && NulFree(b)
    ensures CString(Join([a, b, [x], [y]])) == a + "," + b + "," + CString([x] + "," + [y])
  {
    JoinFour(a, b, [x], [y]);
    assert Join([a, b, [x], [y]]) == (a + "," + b + ",") + ([x] + "," + [y]);
    NulFreeAppend(a, ",");
    NulFreeAppend(a + ",", b);
    NulFreeAppend(a + "," + b, ",");
    CStringAppend(a + "," + b + ",", [x] + "," + [y]);
  }

  /** A joined text used as the first column of a longer join. */
  lemma JoinNested(a: seq<string>, b: seq<string>)
    requires |a| > 0 && |b| > 0
    ensures Join([Join(a)] + b) == Join(a + b)
  {
    JoinAppend(a, b);
    JoinAppend([Join(a)], b);
  }
}

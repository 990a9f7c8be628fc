/** The field codec: big-endian wire integers and space-padded text fields.

    The source runs on a little-endian host and converts with `be16toh`,
    `be32toh` and `be64toh`. The model states that conversion on the
    integer the host loads (`BigEndianToHost`) and proves that it equals
    reading the wire bytes most significant first (`FromBigEndian`), which
    is what every layer above uses. */
module Utils {

  type byte = x: nat | x < 256

  function Pow256(n: nat): (r: nat)
    ensures r >= 1
  {
    if n == 0 then 1 else 256 * Pow256(n - 1)
  }

  lemma Pow256Widths()
    ensures Pow256(1) == 0x100 && Pow256(2) == 0x1_0000
    ensures Pow256(4) == 0x1_0000_0000 && Pow256(8) == 0x1_0000_0000_0000_0000
  {
    assert Pow256(2) == 0x1_0000;
    assert Pow256(4) == 0x1_0000 * Pow256(2);
    assert Pow256(8) == 0x1_0000_0000 * Pow256(4) by {
      assert Pow256(8) == 0x1_0000 * Pow256(6);
      assert Pow256(6) == 0x1_0000 * Pow256(4);
    }
  }

  lemma DivideByByte(x: nat, n: nat)
    requires x < Pow256(n + 1)
    ensures x / 256 < Pow256(n)
  {
  }

  /** The value of `b` read with its first byte as the most significant one. */
  function FromBigEndian(b: seq<byte>): (r: nat)
    ensures r < Pow256(|b|)
  {
    if |b| == 0 then 0
    else
      var high := FromBigEndian(b[..|b| - 1]);
      assert high * 256 <= (Pow256(|b| - 1) - 1) * 256;
      high * 256 + b[|b| - 1]
  }

  /** The value of `b` read with its first byte as the least significant one:
      how the little-endian host loads an integer from memory. */
  function FromLittleEndian(b: seq<byte>): (r: nat)
    ensures r < Pow256(|b|)
  {
    if |b| == 0 then 0
    else
      var high := FromLittleEndian(b[1..]);
      assert 256 * high <= 256 * (Pow256(|b| - 1) - 1);
      b[0] + 256 * high
  }

  /** The `width` bytes that carry `x` on the wire, most significant first. */
  function ToBigEndian(width: nat, x: nat): (b: seq<byte>)
    requires x < Pow256(width)
    ensures |b| == width && FromBigEndian(b) == x
  {
    if width == 0 then []
    else
      DivideByByte(x, width - 1);
      var b := ToBigEndian(width - 1, x / 256) + [x % 256];
      assert b[..|b| - 1] == ToBigEndian(width - 1, x / 256);
      b
  }

  /** The `width` bytes in which the host stores `x`, least significant first. */
  function ToLittleEndian(width: nat, x: nat): (b: seq<byte>)
    requires x < Pow256(width)
    ensures |b| == width && FromLittleEndian(b) == x
  {
    if width == 0 then []
    else
      DivideByByte(x, width - 1);
      var b := [x % 256] + ToLittleEndian(width - 1, x / 256);
      assert b[1..] == ToLittleEndian(width - 1, x / 256);
      b
  }

  function Reverse(s: seq<byte>): (r: seq<byte>)
    ensures |r| == |s|
    ensures forall i :: 0 <= i < |s| ==> r[i] == s[|s| - 1 - i]
  {
    if |s| == 0 then [] else [s[|s| - 1]] + Reverse(s[..|s| - 1])
  }

  lemma ReverseReverse(s: seq<byte>)
    ensures Reverse(Reverse(s)) == s
  {
  }

  /** Reading the reversed bytes least significant first is reading the
      original bytes most significant first. */
  lemma {:induction false} LittleEndianOfReverse(b: seq<byte>)
    ensures FromLittleEndian(Reverse(b)) == FromBigEndian(b)
  {
    if |b| > 0 {
      var r := Reverse(b);
      assert r[1..] == Reverse(b[..|b| - 1]);
      LittleEndianOfReverse(b[..|b| - 1]);
    }
  }

  /** A big-endian field is determined by its value: decoding loses nothing. */
  lemma {:induction false} BigEndianUnique(b: seq<byte>)
    ensures ToBigEndian(|b|, FromBigEndian(b)) == b
  {
    if |b| > 0 {
      var prefix := b[..|b| - 1];
      var x := FromBigEndian(b);
      assert x / 256 == FromBigEndian(prefix) && x % 256 == b[|b| - 1];
      BigEndianUnique(prefix);
    }
  }

  lemma {:induction false} LittleEndianUnique(b: seq<byte>)
    ensures ToLittleEndian(|b|, FromLittleEndian(b)) == b
  {
    if |b| > 0 {
      var x := FromLittleEndian(b);
      assert x / 256 == FromLittleEndian(b[1..]) && x % 256 == b[0];
      LittleEndianUnique(b[1..]);
    }
  }

  /** Reverses the byte order of a `width`-byte integer. */
  function ByteSwap(width: nat, x: nat): (r: nat)
    requires x < Pow256(width)
    ensures r < Pow256(width)
    ensures ToLittleEndian(width, r) == Reverse(ToLittleEndian(width, x))
  {
    var stored := ToLittleEndian(width, x);
    LittleEndianOfReverse(stored);
    LittleEndianUnique(Reverse(stored));
    FromBigEndian(stored)
  }

  /** The widths, in bytes, that the conversions act on: 16, 32 and 64 bits. */
  predicate Swapped(width: nat)
  {
    width == 2 || width == 4 || width == 8
  }

  /** `big_endian_to_host` on a little-endian host: a 2-, 4- or 8-byte
      integer has its bytes reversed; any other width is returned as is. */
  function BigEndianToHost(width: nat, x: nat): (r: nat)
    requires x < Pow256(width)
    ensures r < Pow256(width)
    ensures Swapped(width) ==> ToLittleEndian(width, r) == Reverse(ToLittleEndian(width, x))
    ensures !Swapped(width) ==> r == x
  {
    if Swapped(width) then ByteSwap(width, x) else x
  }

  /** `host_to_big_endian` on a little-endian host. */
  function HostToBigEndian(width: nat, x: nat): (r: nat)
    requires x < Pow256(width)
    ensures r < Pow256(width)
    ensures Swapped(width) ==> ToLittleEndian(width, r) == Reverse(ToLittleEndian(width, x))
    ensures !Swapped(width) ==> r == x
  {
    if Swapped(width) then ByteSwap(width, x) else x
  }

  /** The two conversions undo each other, for every width and value. */
  lemma ConversionsInvert(width: nat, x: nat)
    requires x < Pow256(width)
    ensures HostToBigEndian(width, BigEndianToHost(width, x)) == x
    ensures BigEndianToHost(width, HostToBigEndian(width, x)) == x
  {
    if Swapped(width) {
      var stored := ToLittleEndian(width, x);
      ReverseReverse(stored);
      var y := BigEndianToHost(width, x);
      calc {
        HostToBigEndian(width, y);
        FromLittleEndian(ToLittleEndian(width, HostToBigEndian(width, y)));
        FromLittleEndian(Reverse(Reverse(stored)));
        x;
      }
      var z := HostToBigEndian(width, x);
      calc {
        BigEndianToHost(width, z);
        FromLittleEndian(ToLittleEndian(width, BigEndianToHost(width, z)));
        FromLittleEndian(Reverse(Reverse(stored)));
        x;
      }
    }
  }

  /** What the source computes for a numeric field of 1, 2, 4 or 8 bytes:
      the host loads the field's bytes, then `big_endian_to_host` converts.
      The result is the value whose most significant byte is the first wire
      byte. */
  lemma {:induction false} HostReadsWireFieldBigEndian(field: seq<byte>)
    requires |field| == 1 || Swapped(|field|)
    ensures BigEndianToHost(|field|, FromLittleEndian(field)) == FromBigEndian(field)
  {
    if Swapped(|field|) {
      LittleEndianUnique(field);
    } else {
      assert field[..0] == [] && field[1..] == [];
    }
  }

  /** `alpha_to_string`, as a value: the field without its right padding.
      Leading and interior spaces are kept. */
  function TrimRight(s: seq<char>): (t: seq<char>)
    ensures |t| <= |s| && t == s[..|t|]
    ensures t == [] || t[|t| - 1] != ' '
    ensures forall j :: |t| <= j < |s| ==> s[j] == ' '
    ensures t == [] <==> forall j :: 0 <= j < |s| ==> s[j] == ' '
  {
    if |s| == 0 then []
    else if s[|s| - 1] == ' ' then TrimRight(s[..|s| - 1])
    else s
  }

  /** `t` right-padded with spaces to `size` characters, as the wire carries it. */
  function PadRight(t: seq<char>, size: nat): (s: seq<char>)
    requires |t| <= size
    ensures |s| == size && s[..|t|] == t
    ensures forall j :: |t| <= j < size ==> s[j] == ' '
  {
    t + seq(size - |t|, _ => ' ')
  }

  /** Text without a trailing space survives padding and trimming. */
  lemma PadThenTrim(t: seq<char>, size: nat)
    requires |t| <= size
    requires t == [] || t[|t| - 1] != ' '
    ensures TrimRight(PadRight(t, size)) == t
  {
    var s := PadRight(t, size);
    var u := TrimRight(s);
    if |u| > |t| {
      assert s[|u| - 1] == ' ';
    }
  }

  /** Trimming a field and padding it back gives the field. */
  lemma TrimThenPad(s: seq<char>)
    ensures PadRight(TrimRight(s), |s|) == s
  {
    var t := TrimRight(s);
    var p := PadRight(t, |s|);
    forall j | 0 <= j < |s| ensures p[j] == s[j] {
      if j < |t| {
        assert p[j] == p[..|t|][j];
      }
    }
  }

  /** Trimming the first `i` characters of `s`: a last character that is a
      space goes, any other ends the trim. */
  lemma TrimRightAt(s: seq<char>, i: nat)
    requires 0 < i <= |s|
    ensures s[i - 1] == ' ' ==> TrimRight(s[..i]) == TrimRight(s[..i - 1])
    ensures s[i - 1] != ' ' ==> TrimRight(s[..i]) == s[..i]
  {
    assert s[..i][..i - 1] == s[..i - 1];
  }

  /** `alpha_to_string` as the source writes it: a scan from the right that
      returns at the first character that is not a space. A text field is an
      `Alpha_t<Size>` with `Size > 1`. */
  method AlphaToString(s: seq<char>) returns (t: seq<char>)
    requires |s| > 1
    ensures t == TrimRight(s)
  {
    var i := |s|;
    assert s[..i] == s;
    while i > 0
      invariant 0 <= i <= |s|
      invariant TrimRight(s[..i]) == TrimRight(s)
    {
      TrimRightAt(s, i);
      if s[i - 1] != ' ' {
        return s[..i];
      }
      i := i - 1;
    }
    return [];
  }
}

/**
 The integer converter: `to_binary` and `to_hex` write an integer in base 2
 and base 16 by repeated division, collecting the digits least significant
 first and reversing them, and the report builder lays each converted number
 out in a row of fixed-width columns.
 */
module ConvertNumbers {
  import opened Wrappers
  import opened Numerals
  import opened Text

  /** `s` read back to front: what `list.reverse()` leaves in the list. */
  function Reversed(s: string): (r: string)
    ensures |r| == |s|
    ensures forall k :: 0 <= k < |s| ==> r[k] == s[|s| - 1 - k]
  {
    if s == [] then [] else [s[|s| - 1]] + Reversed(s[..|s| - 1])
  }

  /** Pushing a digit at the back of the list puts it at the front of the reversed list. */
  lemma ReversedPush(s: string, c: char)
    ensures Reversed(s + [c]) == [c] + Reversed(s)
  {
    assert (s + [c])[..|s|] == s;
  }

  /** One division step: the digits of `n` are the digits of `n / base` and then `n % base`. */
  lemma MagnitudeStep(n: nat, base: nat, digits: string, c: char)
    requires IsBase(base) && n > 0 && c == DigitChar(n % base)
    ensures Magnitude(n, base) + digits == Magnitude(n / base, base) + ([c] + digits)
  {
    assert Magnitude(n, base) == Magnitude(n / base, base) + [c];
  }

  /**
   `to_binary`: the numeral of `number` in base 2, "-" and the bits of
   `-number` for a negative number, "0" for zero.
   */
  method ToBinary(number: int) returns (s: string)
    ensures s == Numeral(number, 2)
    ensures ParseNumeral(s, 2) == Some(number)
    ensures number < 0 ==> s == "-" + Numeral(-number, 2)
  {
    NumeralRoundTrip(number, 2);
    if number == 0 {
      return "0";
    }
    var sign := "";
    var n := number;
    if n < 0 {
      sign := "-";
      n := -n;
    }
    ghost var magnitude := n;
    var bits: string := [];
    while n > 0
      invariant n >= 0
      invariant Magnitude(magnitude, 2) == Magnitude(n, 2) + Reversed(bits)
      decreases n
    {
      var remainder := n % 2;
      // str(remainder) of a remainder 0 or 1
      var digit := HexDigits[remainder];
      HexDigitValue(remainder);
      MagnitudeStep(n, 2, Reversed(bits), digit);
      ReversedPush(bits, digit);
      bits := bits + [digit];
      n := n / 2;
    }
    bits := Reversed(bits);
    s := sign + bits;
  }

  /**
   `to_hex`: the numeral of `number` in base 16 with the digits of
   `HEX_DIGITS`, "-" and the digits of `-number` for a negative number, "0"
   for zero.
   */
  method ToHex(number: int) returns (s: string)
    ensures s == Numeral(number, 16)
    ensures ParseNumeral(s, 16) == Some(number)
    ensures number < 0 ==> s == "-" + Numeral(-number, 16)
  {
    NumeralRoundTrip(number, 16);
    if number == 0 {
      return "0";
    }
    var sign := "";
    var n := number;
    if n < 0 {
      sign := "-";
      n := -n;
    }
    ghost var magnitude := n;
    var digits: string := [];
    while n > 0
      invariant n >= 0
      invariant Magnitude(magnitude, 16) == Magnitude(n, 16) + Reversed(digits)
      decreases n
    {
      var remainder := n % 16;
      var digit := HexDigits[remainder];
      HexDigitValue(remainder);
      MagnitudeStep(n, 16, Reversed(digits), digit);
      ReversedPush(digits, digit);
      digits := digits + [digit];
      n := n / 16;
    }
    digits := Reversed(digits);
    s := sign + digits;
  }

  /**
   The binary numeral of a positive number is made of '0' and '1', starts
   with '1' and has the minimal length: 2^(len-1) <= n < 2^len.
   */
  lemma BinaryMinimal(n: int)
    requires n > 0
    ensures var s := Numeral(n, 2);
      && (forall k :: 0 <= k < |s| ==> s[k] == '0' || s[k] == '1')
      && |s| > 0 && s[0] == '1'
      && Pow(2, |s| - 1) <= n < Pow(2, |s|)
  {
    var s := Magnitude(n, 2);
    assert Numeral(n, 2) == s;
    MagnitudeDigits(n, 2);
    MagnitudeLength(n, 2);
    forall k | 0 <= k < |s| ensures s[k] == '0' || s[k] == '1' {
      BinaryDigit(s[k]);
    }
    BinaryDigit(s[0]);
  }

  /** A digit of radix 2 is '0' or '1'. */
  lemma BinaryDigit(c: char)
    requires 0 <= DigitValue(c) < 2
    ensures c == '0' || c == '1'
  {}

  /**
   The hexadecimal numeral of a nonzero number is an optional "-" followed
   by upper-case digits of `HEX_DIGITS`, the first of which is not '0'.
   */
  lemma HexUpperCase(n: int)
    requires n != 0
    ensures var s := Numeral(n, 16);
      var t := if n < 0 then s[1..] else s;
      && |t| > 0 && t[0] != '0'
      && (forall k :: 0 <= k < |t| ==> '0' <= t[k] <= '9' || 'A' <= t[k] <= 'F')
      && Pow(16, |t| - 1) <= (if n < 0 then -n else n) < Pow(16, |t|)
  {
    var m: nat := if n < 0 then -n else n;
    var t := Magnitude(m, 16);
    MagnitudeDigits(m, 16);
    MagnitudeLength(m, 16);
    if n < 0 {
      assert Numeral(n, 16) == "-" + t;
      assert ("-" + t)[1..] == t;
    } else {
      assert Numeral(n, 16) == t;
    }
    forall k | 0 <= k < |t| ensures '0' <= t[k] <= '9' || 'A' <= t[k] <= 'F' {
      assert 0 <= DigitValue(t[k]);
    }
  }

  // Column widths of the report.
  const ItemWidth: nat := 6
  const NumberWidth: nat := 12
  const BinaryWidth: nat := 28
  const HexWidth: nat := 10

  /** Four fields, each left-justified in its column: 6, 12, 28 and 10 wide. */
  function Columns(item: string, number: string, binary: string, hex: string): string {
    LeftJustify(item, ItemWidth) + LeftJustify(number, NumberWidth)
    + LeftJustify(binary, BinaryWidth) + LeftJustify(hex, HexWidth)
  }

  /**
   Each field appears whole, starting where the previous padded column
   ends: a field longer than its column is never truncated but moves the
   later ones right.
   */
  lemma ColumnsLayout(item: string, number: string, binary: string, hex: string)
    ensures var r := Columns(item, number, binary, hex);
      var c1 := Max(|item|, ItemWidth);
      var c2 := c1 + Max(|number|, NumberWidth);
      var c3 := c2 + Max(|binary|, BinaryWidth);
      && |r| == c3 + Max(|hex|, HexWidth)
      && r[..|item|] == item
      && r[c1..c1 + |number|] == number
      && r[c2..c2 + |binary|] == binary
      && r[c3..c3 + |hex|] == hex
  {
    var a := LeftJustify(item, ItemWidth);
    var b := LeftJustify(number, NumberWidth);
    var c := LeftJustify(binary, BinaryWidth);
    var d := LeftJustify(hex, HexWidth);
    Placed(a, b, c, d, item, number, binary, hex);
  }

  /** The header row: the column titles, each left-justified in its column. */
  function Header(): string {
    Columns("ITEM", "NUMBER", "BINARY", "HEX")
  }

  /** The header is 56 characters, with ITEM, NUMBER, BINARY and HEX at columns 0, 6, 18 and 46. */
  lemma HeaderLayout()
    ensures var r := Header();
      && |r| == 56
      && r[..4] == "ITEM" && r[6..12] == "NUMBER" && r[18..24] == "BINARY" && r[46..49] == "HEX"
  {
    ColumnsLayout("ITEM", "NUMBER", "BINARY", "HEX");
  }

  /** Four strings laid end to end keep each one's leading field at that string's offset. */
  lemma Placed(a: string, b: string, c: string, d: string, w: string, x: string, y: string, z: string)
    requires |w| <= |a| && a[..|w|] == w && |x| <= |b| && b[..|x|] == x
    requires |y| <= |c| && c[..|y|] == y && |z| <= |d| && d[..|z|] == z
    ensures var r := a + b + c + d;
      && r[..|w|] == w
      && r[|a|..|a| + |x|] == x
      && r[|a| + |b|..|a| + |b| + |y|] == y
      && r[|a| + |b| + |c|..|a| + |b| + |c| + |z|] == z
  {
    var ab := a + b;
    var abc := ab + c;
    ConcatLeft(a, b, 0, |w|);
    ConcatLeft(ab, c, 0, |w|);
    ConcatLeft(abc, d, 0, |w|);
    ConcatRight(a, b, |a|, |a| + |x|);
    ConcatLeft(ab, c, |a|, |a| + |x|);
    ConcatLeft(abc, d, |a|, |a| + |x|);
    ConcatRight(ab, c, |ab|, |ab| + |y|);
    ConcatLeft(abc, d, |ab|, |ab| + |y|);
    ConcatRight(abc, d, |abc|, |abc| + |z|);
  }

  /** One result row: item index, the number in decimal, its binary and its hex numeral. */
  function Row(index: int, n: int, binary: string, hex: string): string {
    Columns(Numeral(index, 10), Numeral(n, 10), binary, hex)
  }

  /**
   When every field fits its width the row is 56 characters long and each
   field starts at its column: 0, 6, 18 and 46.
   */
  lemma RowColumns(index: int, n: int, binary: string, hex: string)
    requires |Numeral(index, 10)| <= ItemWidth && |Numeral(n, 10)| <= NumberWidth
    requires |binary| <= BinaryWidth && |hex| <= HexWidth
    ensures var row := Row(index, n, binary, hex);
      && |row| == 56
      && row[..|Numeral(index, 10)|] == Numeral(index, 10)
      && row[6..6 + |Numeral(n, 10)|] == Numeral(n, 10)
      && row[18..18 + |binary|] == binary
      && row[46..46 + |hex|] == hex
  {
    ColumnsLayout(Numeral(index, 10), Numeral(n, 10), binary, hex);
  }

  /**
   The table of `main`: the header, then one row per number with item
   indices 1, 2, ... in input order.
   */
  method BuildRows(numbers: seq<int>) returns (results: seq<string>)
    ensures |results| == |numbers| + 1
    ensures results[0] == Header()
    ensures forall k :: 0 <= k < |numbers| ==>
      results[k + 1] == Row(k + 1, numbers[k], Numeral(numbers[k], 2), Numeral(numbers[k], 16))
  {
    results := [Header()];
    var itemIndex := 0;
    for i := 0 to |numbers|
      invariant itemIndex == i && |results| == i + 1 && results[0] == Header()
      invariant forall k :: 0 <= k < i ==>
        results[k + 1] == Row(k + 1, numbers[k], Numeral(numbers[k], 2), Numeral(numbers[k], 16))
    {
      var n := numbers[i];
      itemIndex := itemIndex + 1;
      var binaryValue := ToBinary(n);
      var hexValue := ToHex(n);
      results := results + [Row(itemIndex, n, binaryValue, hexValue)];
    }
  }
}

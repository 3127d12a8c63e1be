/**
 * The fixed-width number fields of the SLCAN wire format: hexadecimal fields
 * as read by sscanf("%0NX") and written by printf("%0Nx") / printf("%0NX"),
 * and decimal numbers as written by printf("%d").
 */
module Hex {
  import opened Options

  /** 16 to the power w: one more than the largest value w hex digits can hold. */
  function Pow16(w: nat): (r: nat)
    ensures r >= 1
  {
    if w == 0 then 1 else 16 * Pow16(w - 1)
  }

  /** The field widths the wire format uses. */
  lemma Pow16Values()
    ensures Pow16(1) == 16 && Pow16(2) == 0x100 && Pow16(3) == 0x1000
    ensures Pow16(4) == 0x1_0000 && Pow16(8) == 0x1_0000_0000
  {
    assert Pow16(2) == 0x100;
    assert Pow16(4) == 0x1_0000;
    assert Pow16(8) == 0x1_0000_0000 by {
      assert Pow16(6) == 0x100_0000;
    }
  }

  predicate IsHexDigit(c: char)
  {
    '0' <= c <= '9' || 'a' <= c <= 'f' || 'A' <= c <= 'F'
  }

  /** A digit as printf writes it: decimal, or a letter in the requested case. */
  predicate IsCasedHexDigit(c: char, upper: bool)
  {
    '0' <= c <= '9' || (if upper then 'A' <= c <= 'F' else 'a' <= c <= 'f')
  }

  predicate AllHex(s: seq<char>)
  {
    forall i :: 0 <= i < |s| ==> IsHexDigit(s[i])
  }

  /** Hex text joined to hex text is hex text. */
  lemma AllHexAppend(a: seq<char>, b: seq<char>)
    requires AllHex(a) && AllHex(b)
    ensures AllHex(a + b)
  {
    forall i | 0 <= i < |a + b| ensures IsHexDigit((a + b)[i]) {
      if i >= |a| {
        assert (a + b)[i] == b[i - |a|];
      }
    }
  }

  function DigitValue(c: char): (v: nat)
    requires IsHexDigit(c)
    ensures v < 16
    ensures '0' <= c <= '9' <==> v < 10
  {
    if c <= '9' then c as int - '0' as int
    else if c >= 'a' then c as int - 'a' as int + 10
    else c as int - 'A' as int + 10
  }

  function DigitChar(v: nat, upper: bool): (c: char)
    requires v < 16
    ensures IsHexDigit(c) && IsCasedHexDigit(c, upper) && DigitValue(c) == v
  {
    if v < 10 then ('0' as int + v) as char
    else if upper then ('A' as int + v - 10) as char
    else ('a' as int + v - 10) as char
  }

  /** The value of a string of hex digits, most significant digit first. */
  function HexValue(s: seq<char>): (v: nat)
    requires AllHex(s)
    ensures v < Pow16(|s|)
    decreases |s|
  {
    if s == [] then 0
    else
      var high := HexValue(s[..|s| - 1]);
      var low := DigitValue(s[|s| - 1]);
      assert 16 * high + low < 16 * Pow16(|s| - 1) by {
        assert high + 1 <= Pow16(|s| - 1);
        assert 16 * (high + 1) <= 16 * Pow16(|s| - 1);
      }
      16 * high + low
  }

  /**
   * sscanf(&line[off], "%0<width>X", &target) restricted to well-formed
   * fields: Some(value) when width hex digits (of either case) stand at
   * off .. off + width - 1 inside the line; None otherwise, in which case the
   * caller leaves its target at its prior value.
   */
  function ScanHex(line: seq<char>, off: nat, width: nat): (r: Option<nat>)
    ensures r.Some? <==> 1 <= width && off + width <= |line| && forall j :: off <= j < off + width ==> IsHexDigit(line[j])
    ensures r.Some? ==> r.value < Pow16(width)
  {
    if 1 <= width && off + width <= |line| && AllHex(line[off..off + width]) then
      Some(HexValue(line[off..off + width]))
    else
      None
  }

  /**
   * printf("%0<width>x") (upper == false) or printf("%0<width>X")
   * (upper == true) of n: the digits of n, padded with '0' on the left to at
   * least width characters.
   */
  function FormatHex(n: nat, width: nat, upper: bool): (r: seq<char>)
    ensures 1 <= |r| && width <= |r|
    decreases n + width
  {
    (if n < 16 && width <= 1 then [] else FormatHex(n / 16, if width == 0 then 0 else width - 1, upper))
    + [DigitChar(n % 16, upper)]
  }

  /** Every character FormatHex writes is a hex digit in the requested case. */
  lemma {:induction false} FormatHexDigits(n: nat, width: nat, upper: bool)
    ensures forall i :: 0 <= i < |FormatHex(n, width, upper)| ==> IsCasedHexDigit(FormatHex(n, width, upper)[i], upper)
    ensures AllHex(FormatHex(n, width, upper))
    decreases n + width
  {
    var high := if n < 16 && width <= 1 then [] else FormatHex(n / 16, if width == 0 then 0 else width - 1, upper);
    if !(n < 16 && width <= 1) {
      FormatHexDigits(n / 16, if width == 0 then 0 else width - 1, upper);
    }
    var r := high + [DigitChar(n % 16, upper)];
    assert r == FormatHex(n, width, upper);
    assert forall i :: 0 <= i < |high| ==> r[i] == high[i];
  }

  /** Appending a digit to hex text multiplies its value by 16 and adds the digit. */
  lemma HexValueAppend(r: seq<char>, high: seq<char>, c: char)
    requires AllHex(high) && IsHexDigit(c) && r == high + [c]
    ensures AllHex(r) && HexValue(r) == 16 * HexValue(high) + DigitValue(c)
  {
    AllHexAppend(high, [c]);
    assert r[..|r| - 1] == high;
  }

  /** Reading back what FormatHex wrote gives the number, whatever the width. */
  lemma {:induction false} HexValueOfFormat(n: nat, width: nat, upper: bool)
    ensures AllHex(FormatHex(n, width, upper)) && HexValue(FormatHex(n, width, upper)) == n
    decreases n + width
  {
    var q, m := n / 16, n % 16;
    var w := if width == 0 then 0 else width - 1;
    var high := if n < 16 && width <= 1 then [] else FormatHex(q, w, upper);
    assert FormatHex(n, width, upper) == high + [DigitChar(m, upper)];
    if !(n < 16 && width <= 1) {
      HexValueOfFormat(q, w, upper);
    }
    HexValueAppend(FormatHex(n, width, upper), high, DigitChar(m, upper));
    assert DigitValue(DigitChar(m, upper)) == m;
    assert HexValue(high) == q;
    assert n == 16 * q + m;
  }

  /** A number below 16^width is written with exactly width digits. */
  lemma {:induction false} FormatHexWidth(n: nat, width: nat, upper: bool)
    requires 1 <= width && n < Pow16(width)
    ensures |FormatHex(n, width, upper)| == width
  {
    if width > 1 {
      assert n / 16 < Pow16(width - 1);
      FormatHexWidth(n / 16, width - 1, upper);
    }
  }

  /** A field printed with FormatHex at offset off is scanned back by ScanHex. */
  lemma ScanFormatted(line: seq<char>, off: nat, n: nat, width: nat, upper: bool)
    requires 1 <= width && n < Pow16(width)
    requires off + width <= |line|
    requires line[off..off + width] == FormatHex(n, width, upper)
    ensures ScanHex(line, off, width) == Some(n)
  {
    FormatHexDigits(n, width, upper);
    HexValueOfFormat(n, width, upper);
  }

  /** A slice that holds a printed field scans back to the number; its digits have the printed case. */
  lemma ScanSlice(line: seq<char>, off: nat, n: nat, width: nat, upper: bool)
    requires 1 <= width && n < Pow16(width)
    requires off + width <= |line|
    requires line[off..off + width] == FormatHex(n, width, upper)
    ensures ScanHex(line, off, width) == Some(n)
    ensures forall j :: off <= j < off + width ==> IsCasedHexDigit(line[j], upper)
  {
    var field := FormatHex(n, width, upper);
    FormatHexDigits(n, width, upper);
    forall j | off <= j < off + width ensures IsCasedHexDigit(line[j], upper) {
      assert line[j] == field[j - off];
    }
    ScanFormatted(line, off, n, width, upper);
  }

  function DecimalDigit(v: nat): (c: char)
    requires v < 10
    ensures '0' <= c <= '9'
  {
    ('0' as int + v) as char
  }

  /** printf("%d") of a non-negative number: its decimal digits, no padding. */
  function FormatDecimal(n: nat): (r: seq<char>)
    ensures 1 <= |r|
    ensures forall i :: 0 <= i < |r| ==> '0' <= r[i] <= '9'
  {
    (if n < 10 then [] else FormatDecimal(n / 10)) + [DecimalDigit(n % 10)]
  }

  /** The value of a string of decimal digits. */
  function DecimalValue(s: seq<char>): nat
    requires forall i :: 0 <= i < |s| ==> '0' <= s[i] <= '9'
  {
    if s == [] then 0 else 10 * DecimalValue(s[..|s| - 1]) + (s[|s| - 1] as int - '0' as int)
  }

  /** Appending a digit to decimal text multiplies its value by 10 and adds the digit. */
  lemma DecimalValueAppend(high: seq<char>, c: char)
    requires forall i :: 0 <= i < |high| ==> '0' <= high[i] <= '9'
    requires '0' <= c <= '9'
    ensures forall i :: 0 <= i < |high + [c]| ==> '0' <= (high + [c])[i] <= '9'
    ensures DecimalValue(high + [c]) == 10 * DecimalValue(high) + (c as int - '0' as int)
  {
    assert (high + [c])[..|high|] == high;
  }

  /** Reading back what FormatDecimal wrote gives the number. */
  lemma {:induction false} DecimalValueOfFormat(n: nat)
    ensures DecimalValue(FormatDecimal(n)) == n
  {
    var q, m := n / 10, n % 10;
    var high := if n < 10 then [] else FormatDecimal(q);
    assert FormatDecimal(n) == high + [DecimalDigit(m)];
    if n >= 10 {
      DecimalValueOfFormat(q);
    }
    DecimalValueAppend(high, DecimalDigit(m));
    assert DecimalDigit(m) as int - '0' as int == m;
    assert DecimalValue(high) == q;
    assert n == 10 * q + m;
  }

  /** A number below 10 is one decimal digit. */
  lemma SingleDecimal(n: nat)
    requires n < 10
    ensures FormatDecimal(n) == [DecimalDigit(n)]
  {
    assert n % 10 == n;
    assert FormatDecimal(n) == [] + [DecimalDigit(n % 10)];
  }

  /** A number below 10 is one hex digit, the same character in either case as its decimal digit. */
  lemma SingleHex(n: nat)
    requires n < 10
    ensures DecimalDigit(n) == DigitChar(n, true) == DigitChar(n, false)
    ensures FormatHex(n, 1, true) == [DecimalDigit(n)]
  {
    assert n % 16 == n;
    assert FormatHex(n, 1, true) == [] + [DigitChar(n % 16, true)];
  }

}

/**
 * Python's `int(s)` and `int(s, 16)` on the strings the HTTP code feeds them,
 * and `len(...)` written back as decimal text. Only plain digit strings are
 * accepted; everything else is the ValueError the Python call raises.
 */
module Numerals {
  import opened Common

  predicate IsDigit(c: char)
  {
    '0' <= c <= '9'
  }

  predicate IsDecimal(s: string)
  {
    |s| > 0 && forall i :: 0 <= i < |s| ==> IsDigit(s[i])
  }

  /** The value of a run of decimal digits, most significant first. */
  function DecimalValue(s: string): nat
    requires forall i :: 0 <= i < |s| ==> IsDigit(s[i])
  {
    if |s| == 0 then 0
    else DecimalValue(s[..|s| - 1]) * 10 + DigitValue(s[|s| - 1])
  }

  function DigitValue(c: char): (d: nat)
    requires IsDigit(c)
    ensures d < 10
  {
    c as int - '0' as int
  }

  function DigitChar(d: nat): (c: char)
    requires d < 10
    ensures IsDigit(c) && c as int - '0' as int == d
  {
    ('0' as int + d) as char
  }

  /** `str(n)` for a natural number. */
  function ToDecimal(n: nat): (s: string)
    ensures IsDecimal(s)
    decreases n
  {
    if n < 10 then [DigitChar(n)] else ToDecimal(n / 10) + [DigitChar(n % 10)]
  }

  /** `int(s)`: the value of a non-empty digit string, or None for a ValueError. */
  function ParseDecimal(s: string): (r: Option<nat>)
    ensures r.Some? <==> IsDecimal(s)
  {
    if IsDecimal(s) then Some(DecimalValue(s)) else None
  }

  /** Writing a number and reading it back gives the number. */
  lemma {:induction false} DecimalRoundTrip(n: nat)
    ensures ParseDecimal(ToDecimal(n)) == Some(n)
    decreases n
  {
    var s := ToDecimal(n);
    if n >= 10 {
      DecimalRoundTrip(n / 10);
      assert s[..|s| - 1] == ToDecimal(n / 10);
      assert DigitValue(s[|s| - 1]) == n % 10;
      assert DecimalValue(ToDecimal(n / 10)) == n / 10;
      assert DecimalValue(s) == DecimalValue(s[..|s| - 1]) * 10 + DigitValue(s[|s| - 1]);
      assert (n / 10) * 10 + n % 10 == n;
    } else {
      assert s[..|s| - 1] == [];
      assert DigitValue(s[0]) == n;
    }
  }

  predicate IsHexDigit(c: char)
  {
    IsDigit(c) || 'a' <= c <= 'f' || 'A' <= c <= 'F'
  }

  predicate IsHex(s: string)
  {
    |s| > 0 && forall i :: 0 <= i < |s| ==> IsHexDigit(s[i])
  }

  function HexDigitValue(c: char): (d: nat)
    requires IsHexDigit(c)
    ensures d < 16
  {
    if IsDigit(c) then c as int - '0' as int
    else if 'a' <= c <= 'f' then c as int - 'a' as int + 10
    else c as int - 'A' as int + 10
  }

  function HexValue(s: string): nat
    requires forall i :: 0 <= i < |s| ==> IsHexDigit(s[i])
  {
    if |s| == 0 then 0
    else HexValue(s[..|s| - 1]) * 16 + HexDigitValue(s[|s| - 1])
  }

  /** `int(s, 16)`: the value of a non-empty hex digit string, or None for a ValueError. */
  function ParseHex(s: string): (r: Option<nat>)
    ensures r.Some? <==> IsHex(s)
  {
    if IsHex(s) then Some(HexValue(s)) else None
  }

  /** The lower-case hex digit for a value below 16. */
  function HexDigitChar(d: nat): (c: char)
    requires d < 16
    ensures IsHexDigit(c) && HexDigitValue(c) == d
  {
    if d < 10 then ('0' as int + d) as char else ('a' as int + d - 10) as char
  }

  /** `'%x' % n`: the shortest lower-case hex string for a natural number. */
  function ToHex(n: nat): (s: string)
    ensures IsHex(s)
    decreases n
  {
    if n < 16 then [HexDigitChar(n)] else ToHex(n / 16) + [HexDigitChar(n % 16)]
  }

  /** A size written in hex reads back with `int(s, 16)` as that size. */
  lemma {:induction false} HexRoundTrip(n: nat)
    ensures ParseHex(ToHex(n)) == Some(n)
    decreases n
  {
    var s := ToHex(n);
    if n >= 16 {
      HexRoundTrip(n / 16);
      assert s[..|s| - 1] == ToHex(n / 16);
      assert HexDigitValue(s[|s| - 1]) == n % 16;
      assert HexValue(s) == HexValue(s[..|s| - 1]) * 16 + HexDigitValue(s[|s| - 1]);
    } else {
      assert s[..|s| - 1] == [];
    }
  }

  /** Leading zeros do not change the value `int(s, 16)` reads. */
  lemma {:induction false} HexLeadingZero(s: string)
    requires IsHex(s)
    ensures ParseHex("0" + s) == ParseHex(s)
    decreases |s|
  {
    var z := "0" + s;
    assert IsHexDigit(z[0]);
    assert forall i :: 1 <= i < |z| ==> z[i] == s[i - 1];
    assert IsHex(z);
    if |s| == 1 {
      assert z[..|z| - 1] == "0";
      assert "0"[..0] == "";
      assert s[..0] == "";
      assert HexValue("0") == 0;
      assert HexValue(z) == HexValue(s);
    } else {
      var p := s[..|s| - 1];
      assert IsHex(p);
      HexLeadingZero(p);
      assert z[..|z| - 1] == "0" + p;
      assert z[|z| - 1] == s[|s| - 1];
      assert HexValue("0" + p) == HexValue(p);
      assert HexValue(z) == HexValue(s);
    }
  }

  /** The digit string "0" reads as zero. */
  lemma ParseHexZero()
    ensures ParseHex("0") == Some(0)
  {
    assert "0"[..0] == "";
    assert IsHexDigit("0"[0]);
  }
}

/** The hexadecimal renderings the normaliser uses, written out digit by
    digit, with a reference parser that reads them back:
    - `Format(n)`      is Go's `fmt.Sprintf("0x%X", n)` for an unsigned integer;
    - `Format08(n)`    is `fmt.Sprintf("0x%08X", n)`;
    - `FormatBytes(b)` is `fmt.Sprintf("0x%X", b)` for a byte slice or byte array
      (two digits per byte). */
module Hex {
  import opened Wrappers

  type Byte = x: int | 0 <= x < 256

  /** Go's `uint32`. */
  type U32 = x: int | 0 <= x < 0x1_0000_0000

  predicate IsHexDigit(c: char) {
    '0' <= c <= '9' || 'A' <= c <= 'F'
  }

  predicate AllHex(s: string) {
    forall i :: 0 <= i < |s| ==> IsHexDigit(s[i])
  }

  /** A digit string as `%X` prints it: at least one digit and no leading zero
      unless the value is zero itself. */
  predicate Canonical(s: string) {
    |s| >= 1 && AllHex(s) && (s[0] == '0' ==> |s| == 1)
  }

  function HexDigit(d: nat): (c: char)
    requires d < 16
    ensures IsHexDigit(c)
    ensures DigitValue(c) == d
    ensures c == '0' <==> d == 0
  {
    if d < 10 then ('0' as int + d) as char else ('A' as int + d - 10) as char
  }

  function DigitValue(c: char): (d: nat)
    requires IsHexDigit(c)
    ensures d < 16
  {
    if c <= '9' then c as int - '0' as int else c as int - 'A' as int + 10
  }

  function Pow16(k: nat): (p: nat)
    ensures p >= 1
  {
    if k == 0 then 1 else 16 * Pow16(k - 1)
  }

  /** The digits `%X` prints for `n`, most significant first. */
  function Digits(n: nat): (s: string)
    ensures Canonical(s)
    ensures s[0] == '0' <==> n == 0
    decreases n
  {
    if n < 16 then [HexDigit(n)] else Digits(n / 16) + [HexDigit(n % 16)]
  }

  /** The number a digit string denotes. */
  function Value(s: string): nat
    requires AllHex(s)
  {
    if s == [] then 0 else Value(s[..|s| - 1]) * 16 + DigitValue(s[|s| - 1])
  }

  function Zeros(k: nat): (s: string)
    ensures |s| == k
    ensures forall i :: 0 <= i < k ==> s[i] == '0'
  {
    seq(k, _ => '0')
  }

  /** The `0` flag with a width: pad on the left with zeros up to `width`. */
  function ZeroPad(s: string, width: nat): string {
    if |s| < width then Zeros(width - |s|) + s else s
  }

  /** `fmt.Sprintf("0x%X", n)`. */
  function Format(n: nat): string {
    "0x" + Digits(n)
  }

  /** `fmt.Sprintf("0x%08X", n)`. */
  function Format08(n: nat): string {
    "0x" + ZeroPad(Digits(n), 8)
  }

  /** The reference reader: `"0x"` and at least one uppercase hex digit. */
  function Parse(s: string): Option<nat> {
    if |s| >= 3 && s[..2] == "0x" && AllHex(s[2..]) then Some(Value(s[2..])) else None
  }

  /** The digits `%X` prints for a byte sequence: two per byte, in order. */
  function ByteDigits(b: seq<Byte>): (s: string)
    ensures |s| == 2 * |b|
    ensures AllHex(s)
  {
    if b == [] then []
    else ByteDigits(b[..|b| - 1]) + [HexDigit(b[|b| - 1] / 16), HexDigit(b[|b| - 1] % 16)]
  }

  /** `fmt.Sprintf("0x%X", b)` for `b` a `[]byte` or a byte array. */
  function FormatBytes(b: seq<Byte>): string {
    "0x" + ByteDigits(b)
  }

  /** Reads an even-length digit string back as bytes, two digits per byte. */
  function PairValues(s: string): (b: seq<Byte>)
    requires AllHex(s) && |s| % 2 == 0
    ensures |b| == |s| / 2
  {
    if s == [] then []
    else PairValues(s[..|s| - 2]) + [DigitValue(s[|s| - 2]) * 16 + DigitValue(s[|s| - 1])]
  }

  /** The reference reader for `FormatBytes`. */
  function ParseBytes(s: string): Option<seq<Byte>> {
    if |s| >= 2 && s[..2] == "0x" && |s| % 2 == 0 && AllHex(s[2..])
    then Some(PairValues(s[2..]))
    else None
  }

  // ---------------------------------------------------------------------------
  // Round trips

  lemma {:induction false} ValueOfDigits(n: nat)
    ensures Value(Digits(n)) == n
    decreases n
  {
    if n >= 16 {
      ValueOfDigits(n / 16);
      var d := Digits(n);
      assert d[..|d| - 1] == Digits(n / 16);
    }
  }

  lemma HexDigitOfValue(c: char)
    requires IsHexDigit(c)
    ensures HexDigit(DigitValue(c)) == c
  {
    if c <= '9' {
      assert DigitValue(c) < 10;
    } else {
      assert DigitValue(c) >= 10;
    }
  }

  /** A string with a non-zero leading digit denotes at least `16^(|s|-1)`;
      every digit string of length `k` denotes less than `16^k`. */
  lemma {:induction false} ValueBounds(s: string)
    requires AllHex(s)
    ensures Value(s) < Pow16(|s|)
    ensures |s| >= 1 && s[0] != '0' ==> Value(s) >= Pow16(|s| - 1)
    decreases |s|
  {
    if s != [] {
      var p := s[..|s| - 1];
      ValueBounds(p);
      if |p| >= 1 {
        assert p[0] == s[0];
      } else {
        HexDigitOfValue(s[0]);
      }
    }
  }

  lemma {:induction false} DigitsOfValue(s: string)
    requires Canonical(s)
    ensures Digits(Value(s)) == s
    decreases |s|
  {
    var last := s[|s| - 1];
    HexDigitOfValue(last);
    if |s| > 1 {
      var p := s[..|s| - 1];
      assert p[0] == s[0];
      ValueBounds(p);
      DigitsOfValue(p);
      assert Value(s) >= 16;
      assert Value(s) / 16 == Value(p) && Value(s) % 16 == DigitValue(last);
      assert s == p + [last];
    }
  }

  lemma {:induction false} Pow16Monotonic(i: nat, j: nat)
    requires i <= j
    ensures Pow16(i) <= Pow16(j)
    decreases j
  {
    if i < j {
      Pow16Monotonic(i, j - 1);
    }
  }

  /** `%X` needs at most `w` digits exactly for the values below `16^w`. */
  lemma DigitsLength(n: nat, w: nat)
    requires w >= 1
    ensures |Digits(n)| <= w <==> n < Pow16(w)
  {
    var d := Digits(n);
    ValueOfDigits(n);
    ValueBounds(d);
    if n == 0 {
    } else if |d| <= w {
      Pow16Monotonic(|d|, w);
    } else {
      Pow16Monotonic(w, |d| - 1);
    }
  }

  lemma {:induction false} ValueOfZeros(k: nat)
    ensures Value(Zeros(k)) == 0
    decreases k
  {
    if k > 0 {
      assert Zeros(k)[..k - 1] == Zeros(k - 1);
      ValueOfZeros(k - 1);
    }
  }

  /** Leading zeros do not change the value. */
  lemma {:induction false} ValueWithLeadingZeros(k: nat, s: string)
    requires AllHex(s)
    ensures AllHex(Zeros(k) + s)
    ensures Value(Zeros(k) + s) == Value(s)
    decreases |s|
  {
    var z := Zeros(k) + s;
    if s == [] {
      assert z == Zeros(k);
      ValueOfZeros(k);
    } else {
      assert z[..|z| - 1] == Zeros(k) + s[..|s| - 1];
      ValueWithLeadingZeros(k, s[..|s| - 1]);
    }
  }

  /** `0x%X` starts with `0x`, continues with canonical uppercase digits, and
      reads back as the value it renders. */
  lemma FormatRoundTrip(n: nat)
    ensures |Format(n)| >= 3 && Format(n)[..2] == "0x"
    ensures Canonical(Format(n)[2..])
    ensures Parse(Format(n)) == Some(n)
  {
    assert Format(n)[2..] == Digits(n);
    ValueOfDigits(n);
  }

  /** `Format` is onto the canonical renderings: reading a `0x`-prefixed
      canonical digit string and rendering the value again gives the string back. */
  lemma FormatOfParse(s: string)
    requires |s| >= 3 && s[..2] == "0x" && Canonical(s[2..])
    ensures Parse(s).Some? && Format(Parse(s).value) == s
  {
    DigitsOfValue(s[2..]);
    assert s == "0x" + s[2..];
  }

  /** `0x%08X` of a 32-bit value is `0x` and exactly eight uppercase digits,
      and reads back as the value. */
  lemma Format08RoundTrip(n: U32)
    ensures |Format08(n)| == 10 && Format08(n)[..2] == "0x"
    ensures AllHex(Format08(n)[2..])
    ensures Parse(Format08(n)) == Some(n)
  {
    var d := Digits(n);
    assert Pow16(8) == 0x1_0000_0000;
    DigitsLength(n, 8);
    ValueOfDigits(n);
    ValueWithLeadingZeros(8 - |d|, d);
    assert Format08(n)[2..] == Zeros(8 - |d|) + d;
  }

  lemma {:induction false} PairValuesOfByteDigits(b: seq<Byte>)
    ensures PairValues(ByteDigits(b)) == b
    decreases |b|
  {
    if b != [] {
      var init, x := b[..|b| - 1], b[|b| - 1];
      var s := ByteDigits(b);
      var hi, lo := HexDigit(x / 16), HexDigit(x % 16);
      assert s == ByteDigits(init) + [hi, lo];
      assert s[..|s| - 2] == ByteDigits(init);
      assert s[|s| - 2] == hi && s[|s| - 1] == lo;
      PairValuesOfByteDigits(init);
      assert DigitValue(hi) * 16 + DigitValue(lo) == x;
      assert b == init + [x];
    }
  }

  /** `0x%X` of a byte sequence is `0x` and two uppercase digits per byte, and
      reads back as the bytes. */
  lemma FormatBytesRoundTrip(b: seq<Byte>)
    ensures |FormatBytes(b)| == 2 + 2 * |b| && FormatBytes(b)[..2] == "0x"
    ensures AllHex(FormatBytes(b)[2..])
    ensures ParseBytes(FormatBytes(b)) == Some(b)
  {
    assert FormatBytes(b)[2..] == ByteDigits(b);
    PairValuesOfByteDigits(b);
  }
}

/** `parseInt(text, 16)` as the ECMAScript language specification (section 19.2.5,
    "parseInt ( string, radix )") defines it for radix 16, with `None` for `NaN`.
    The reader applies it to the four characters after the stop marker. */
module JsParseInt {
  import opened Wrappers

  predicate IsHexDigit(c: char) {
    '0' <= c <= '9' || 'a' <= c <= 'f' || 'A' <= c <= 'F'
  }

  predicate AllHex(s: string) {
    forall i :: 0 <= i < |s| ==> IsHexDigit(s[i])
  }

  function DigitValue(c: char): (d: nat)
    requires IsHexDigit(c)
    ensures d < 16
  {
    if '0' <= c <= '9' then c as int - '0' as int
    else if 'a' <= c <= 'f' then c as int - 'a' as int + 10
    else c as int - 'A' as int + 10
  }

  /** The value of a string of hex digits, most significant digit first. */
  function HexValue(s: string): nat
    requires AllHex(s)
    decreases |s|
  {
    if |s| == 0 then 0 else HexValue(s[..|s| - 1]) * 16 + DigitValue(s[|s| - 1])
  }

  function Pow16(n: nat): (p: nat)
    ensures p >= 1
  {
    if n == 0 then 1 else 16 * Pow16(n - 1)
  }

  /** `n` hex digits denote a value below 16^n. */
  lemma {:induction false} HexValueBound(s: string)
    requires AllHex(s)
    ensures HexValue(s) < Pow16(|s|)
    decreases |s|
  {
    if |s| > 0 {
      HexValueBound(s[..|s| - 1]);
    }
  }

  /** WhiteSpace and LineTerminator code points of ECMAScript (the characters
      `parseInt` skips before the number): tab, vertical tab, form feed, the
      byte-order mark, every space separator, LF, CR, LS and PS. */
  predicate IsStrWhiteSpace(c: char) {
    || c == '\t' || c == '\U{000B}' || c == '\U{000C}' || c == '\U{FEFF}'
    || c == ' ' || c == '\U{00A0}' || c == '\U{1680}'
    || ('\U{2000}' <= c <= '\U{200A}')
    || c == '\U{202F}' || c == '\U{205F}' || c == '\U{3000}'
    || c == '\n' || c == '\r' || c == '\U{2028}' || c == '\U{2029}'
  }

  /** The text after its leading white space. */
  function TrimStart(s: string): (t: string)
    ensures |t| <= |s| && t == s[|s| - |t|..]
    ensures forall i :: 0 <= i < |s| - |t| ==> IsStrWhiteSpace(s[i])
    ensures |t| > 0 ==> !IsStrWhiteSpace(t[0])
    decreases |s|
  {
    if |s| > 0 && IsStrWhiteSpace(s[0]) then TrimStart(s[1..]) else s
  }

  /** The length of the longest run of hex digits that starts the text. */
  function HexPrefixLength(s: string): (n: nat)
    ensures n <= |s|
    ensures AllHex(s[..n])
    ensures n < |s| ==> !IsHexDigit(s[n])
    decreases |s|
  {
    if |s| > 0 && IsHexDigit(s[0]) then
      var m := HexPrefixLength(s[1..]);
      assert forall i :: 0 <= i < m + 1 ==> s[..m + 1][i] == s[i];
      m + 1
    else 0
  }

  /** `parseInt(s, 16)`: skip white space, read an optional sign, drop an
      optional `0x`/`0X`, then read the longest run of hex digits; `None`
      (`NaN`) when that run is empty. */
  function ParseIntHex(s: string): (r: Option<int>)
    ensures |s| > 0 && AllHex(s) ==> r == Some(HexValue(s))
    ensures r.Some? ==> -(Pow16(|s|) as int) < r.value < Pow16(|s|)
  {
    var t := TrimStart(s);
    var negative := |t| > 0 && t[0] == '-';
    var u := if |t| > 0 && (t[0] == '+' || t[0] == '-') then t[1..] else t;
    var w := if |u| >= 2 && u[0] == '0' && (u[1] == 'x' || u[1] == 'X') then u[2..] else u;
    var n := HexPrefixLength(w);
    if n == 0 then None
    else
      var digits := w[..n];
      assert |s| > 0 && AllHex(s) ==> digits == s by {
        if |s| > 0 && AllHex(s) {
          assert !IsStrWhiteSpace(s[0]) && t == s;
          assert w == s;
          assert n == |s|;
        }
      }
      HexValueBound(digits);
      PowMonotone(|digits|, |s|);
      var magnitude: int := HexValue(digits);
      Some(if negative then -magnitude else magnitude)
  }

  lemma {:induction false} PowMonotone(m: nat, n: nat)
    requires m <= n
    ensures Pow16(m) <= Pow16(n)
    decreases n
  {
    if m < n {
      PowMonotone(m, n - 1);
    }
  }

  /** The checksum as a meter writes it: four upper-case hex digits. */
  function Hex4(v: nat): (t: string)
    requires v < 0x1_0000
    ensures |t| == 4 && AllHex(t)
  {
    [HexChar(v / 16 / 16 / 16), HexChar(v / 16 / 16 % 16), HexChar(v / 16 % 16), HexChar(v % 16)]
  }

  function HexChar(d: nat): (c: char)
    requires d < 16
    ensures IsHexDigit(c) && DigitValue(c) == d
  {
    if d < 10 then ('0' as int + d) as char else ('A' as int + d - 10) as char
  }

  /** Reading back a written checksum gives the checksum. */
  lemma Hex4RoundTrip(v: nat)
    requires v < 0x1_0000
    ensures ParseIntHex(Hex4(v)) == Some(v)
  {
    Hex4Value(v);
  }

  /** The digits written for `v` denote `v`. */
  lemma Hex4Value(v: nat)
    requires v < 0x1_0000
    ensures HexValue(Hex4(v)) == v
  {
    var t := Hex4(v);
    assert HexValue(t[..1]) == v / 16 / 16 / 16 by {
      assert t[..1][..0] == [];
    }
    assert HexValue(t[..2]) == v / 16 / 16 by {
      assert t[..2][..1] == t[..1];
    }
    assert HexValue(t[..3]) == v / 16 by {
      assert t[..3][..2] == t[..2];
    }
    assert HexValue(t) == v by {
      assert t[..3] == t[..|t| - 1];
    }
  }

  /** A four-character trailer of hex digits reads as an unsigned 16-bit value. */
  lemma Trailer16Bit(t: string)
    requires |t| == 4 && AllHex(t)
    ensures ParseIntHex(t) == Some(HexValue(t))
    ensures HexValue(t) < 0x1_0000
  {
    HexValueBound(t);
  }
}

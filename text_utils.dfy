// utilsPrivate/textUtils.js: isTextIgnoreRTL, which holds for hex colour
// codes such as "#1a2B3c".

module TextUtils {
  import opened JsValues

  /** [0-9abcdef] under the `i` flag: ASCII digits and the letters a to f in
      either case. */
  predicate IsHexDigit(c: char) {
    ('0' <= c <= '9') || ('a' <= c <= 'f') || ('A' <= c <= 'F')
  }

  predicate AllHex(s: string) {
    forall i :: 0 <= i < |s| ==> IsHexDigit(s[i])
  }

  /** /^#[0-9abcdef]{6}$/i.test(s): '#' and six hex digits, nothing before
      and nothing after. */
  predicate IsHexColor(s: string) {
    |s| == 7 && s[0] == '#' && AllHex(s[1..])
  }

  /** isTextIgnoreRTL(value): a non-empty string that is a hex colour code. */
  function IsTextIgnoreRTL(value: JsValue): (r: bool)
  {
    value.Str? && value.s != "" && IsHexColor(value.s)
  }

  /** The value of a hex digit. */
  function HexDigitValue(c: char): (d: nat)
    requires IsHexDigit(c)
    ensures d < 16
  {
    if '0' <= c <= '9' then (c as int) - ('0' as int)
    else if 'a' <= c <= 'f' then (c as int) - ('a' as int) + 10
    else (c as int) - ('A' as int) + 10
  }

  /** The lower-case hex digit for d. */
  function HexDigitChar(d: nat): (c: char)
    requires d < 16
    ensures IsHexDigit(c) && HexDigitValue(c) == d && !('A' <= c <= 'Z')
  {
    if d < 10 then ('0' as int + d) as char else ('a' as int + d - 10) as char
  }

  /** The value of hex digits read left to right. */
  function HexValue(s: string): nat
    requires AllHex(s)
  {
    if s == [] then 0 else HexValue(s[..|s| - 1]) * 16 + HexDigitValue(s[|s| - 1])
  }

  function Pow16(k: nat): (p: nat)
    ensures p >= 1
  {
    if k == 0 then 1 else 16 * Pow16(k - 1)
  }

  /** The k lowest hex digits of n, lower case, most significant first. */
  function HexDigits(n: nat, k: nat): (r: string)
    ensures |r| == k && AllHex(r)
  {
    if k == 0 then [] else HexDigits(n / 16, k - 1) + [HexDigitChar(n % 16)]
  }

  /** The colour code of a 24-bit colour value. */
  function HexColor(n: nat): (r: string)
    requires n < 0x100_0000
  {
    "#" + HexDigits(n, 6)
  }

  /** k hex digits of a number below 16^k read back as that number. */
  lemma {:induction false} HexDigitsValue(n: nat, k: nat)
    requires n < Pow16(k)
    ensures HexValue(HexDigits(n, k)) == n
  {
    if k > 0 {
      var r := HexDigits(n, k);
      assert r[..k - 1] == HexDigits(n / 16, k - 1);
      HexDigitsValue(n / 16, k - 1);
    }
  }

  lemma DigitSplit(a: nat, d: nat)
    requires d < 16
    ensures (a * 16 + d) / 16 == a && (a * 16 + d) % 16 == d
  {
  }

  lemma HexDigitRoundTrip(c: char)
    requires IsHexDigit(c)
    ensures HexDigitChar(HexDigitValue(c)) == LowerAscii(c)
  {
  }

  lemma {:induction false} LowerAsciiSnoc(s: string)
    requires s != []
    ensures LowerAsciiString(s) == LowerAsciiString(s[..|s| - 1]) + [LowerAscii(s[|s| - 1])]
  {
    if |s| > 1 {
      LowerAsciiSnoc(s[1..]);
      assert s[1..][..|s| - 2] == s[..|s| - 1][1..];
    }
  }

  /** Hex digits written back from their value are the digits themselves,
      in lower case. */
  lemma {:induction false} HexValueDigits(s: string)
    requires AllHex(s)
    ensures HexDigits(HexValue(s), |s|) == LowerAsciiString(s)
  {
    if s != [] {
      var init := s[..|s| - 1];
      var c := s[|s| - 1];
      assert AllHex(init) && IsHexDigit(c) by {
        forall i | 0 <= i < |init| ensures IsHexDigit(init[i]) {
          assert init[i] == s[i];
        }
      }
      HexValueDigits(init);
      var n := HexValue(s);
      assert n / 16 == HexValue(init) && n % 16 == HexDigitValue(c) by {
        assert n == HexValue(init) * 16 + HexDigitValue(c);
        DigitSplit(HexValue(init), HexDigitValue(c));
      }
      assert HexDigits(n, |s|) == HexDigits(n / 16, |init|) + [HexDigitChar(n % 16)];
      assert HexDigitChar(n % 16) == LowerAscii(c) by {
        HexDigitRoundTrip(c);
      }
      LowerAsciiSnoc(s);
    }
  }

  /** Every colour value's code is accepted and reads back as the value. */
  lemma HexColorAccepted(n: nat)
    requires n < 0x100_0000
    ensures IsTextIgnoreRTL(Str(HexColor(n)))
    ensures HexValue(HexColor(n)[1..]) == n
  {
    assert HexColor(n)[1..] == HexDigits(n, 6);
    assert Pow16(6) == 0x100_0000;
    HexDigitsValue(n, 6);
  }

  /** Conversely every accepted string is a colour's code, up to the case of
      its letters. */
  lemma AcceptedIsHexColor(value: JsValue)
    requires IsTextIgnoreRTL(value)
    ensures value.Str? && HexValue(value.s[1..]) < 0x100_0000
    ensures HexColor(HexValue(value.s[1..])) == LowerAsciiString(value.s)
  {
    var s := value.s;
    HexValueDigits(s[1..]);
    assert Pow16(6) == 0x100_0000;
    HexDigitsValue(HexValue(s[1..]) % 0x100_0000, 6);
    HexValueBound(s[1..]);
    assert LowerAsciiString(s) == [LowerAscii(s[0])] + LowerAsciiString(s[1..]);
  }

  lemma {:induction false} HexValueBound(s: string)
    requires AllHex(s)
    ensures HexValue(s) < Pow16(|s|)
  {
    if s != [] {
      HexValueBound(s[..|s| - 1]);
    }
  }

  /** Non-strings, the empty string, the three-digit shorthand and a code
      with anything before or after it are not accepted. */
  lemma Rejected(value: JsValue, s: string, c: char)
    ensures !value.Str? ==> !IsTextIgnoreRTL(value)
    ensures !IsTextIgnoreRTL(Str(""))
    ensures |s| != 7 ==> !IsTextIgnoreRTL(Str(s))
    ensures IsHexColor(s) ==> !IsTextIgnoreRTL(Str(s + [c])) && !IsTextIgnoreRTL(Str([c] + s))
  {
  }
}

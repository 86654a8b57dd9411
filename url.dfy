// utilsPrivate/url.js: the URL prefix check, formatUrl, and sanitizeURL,
// which decodes numeric character references, strips control entities and
// control characters, trims, and refuses script-like and data schemes.

module Urls {
  import opened JsValues

  // ---------------------------------------------------------------------------
  // isValidUrl and formatUrl

  /** /^(\/+|\.+|ftp|http(s?):\/\/)/i.test(url): the URL starts with a slash,
      a dot, "ftp", "http://" or "https://", letters in any case. */
  predicate IsValidUrl(url: string) {
    (url != [] && (url[0] == '/' || url[0] == '.')) ||
    StartsWithIgnoreCase(url, "ftp") ||
    StartsWithIgnoreCase(url, "http://") ||
    StartsWithIgnoreCase(url, "https://")
  }

  /** The protocol used when rendering on the server. */
  const SsrProtocol: string := "https:"

  /** formatUrl(url): a valid URL as it is, anything else behind the page's
      protocol and "//". `windowProtocol` is window.location.protocol when a
      window exists (rendering in the browser) and None on the server. */
  function FormatUrl(url: string, windowProtocol: Option<string>): (r: string)
    ensures IsValidUrl(url) ==> r == url
    ensures !IsValidUrl(url) ==> r == (if windowProtocol.Some? then windowProtocol.value else SsrProtocol) + "//" + url
  {
    var protocol := if windowProtocol.Some? then windowProtocol.value else SsrProtocol;
    if IsValidUrl(url) then url else protocol + "//" + url
  }

  lemma HttpPrefixValid(protocol: string, url: string)
    requires protocol == "http:" || protocol == "https:"
    ensures IsValidUrl(protocol + "//" + url)
  {
    var s := protocol + "//" + url;
    if protocol == "http:" {
      assert s[..7] == "http://";
    } else {
      assert s[..8] == "https://";
    }
  }

  /** With an http or https page, or on the server, formatUrl always yields a
      valid URL, so formatting twice is formatting once. */
  lemma FormatUrlValid(url: string, windowProtocol: Option<string>)
    requires windowProtocol.Some? ==> windowProtocol.value in ["http:", "https:"]
    ensures IsValidUrl(FormatUrl(url, windowProtocol))
    ensures FormatUrl(FormatUrl(url, windowProtocol), windowProtocol) == FormatUrl(url, windowProtocol)
  {
    if !IsValidUrl(url) {
      HttpPrefixValid(if windowProtocol.Some? then windowProtocol.value else SsrProtocol, url);
    }
  }

  // ---------------------------------------------------------------------------
  // String.fromCharCode of a reference's digits

  /** The value of an alphanumeric digit; 36 for any other character. */
  function DigitOf(c: char): (d: nat)
    ensures d <= 36
  {
    if '0' <= c <= '9' then (c as int) - ('0' as int)
    else if 'a' <= c <= 'z' then (c as int) - ('a' as int) + 10
    else if 'A' <= c <= 'Z' then (c as int) - ('A' as int) + 10
    else 36
  }

  predicate InRadix(s: string, radix: nat) {
    forall i :: 0 <= i < |s| ==> DigitOf(s[i]) < radix
  }

  /** The value of the digits `s` in base `radix`, read left to right. */
  function RadixValue(s: string, radix: nat): nat
    requires InRadix(s, radix)
  {
    if s == [] then 0 else RadixValue(s[..|s| - 1], radix) * radix + DigitOf(s[|s| - 1])
  }

  function Pow10(e: nat): nat {
    if e == 0 then 1 else 10 * Pow10(e - 1)
  }

  /** A Number as far as ToUint16 tells them apart. Every number a string of
      word characters denotes is a non-negative integer or infinite, and a
      finite one is the value of a double. */
  datatype Number = Finite(n: nat) | Infinite | NotANumber

  // ---------------------------------------------------------------------------
  // Rounding a mathematical value to a double

  /** 2^53: every natural number below it is the value of a double. */
  const TwoTo53: nat := 0x20_0000_0000_0000

  function Pow2(e: nat): (p: nat)
    ensures p > e
  {
    if e == 0 then 1 else 2 * Pow2(e - 1)
  }

  /** The distance between neighbouring doubles at n: 1 below 2^53, and
      doubled with each binade above it. */
  function Spacing(n: nat): (q: nat)
    ensures q >= 1
    decreases n
  {
    if n < TwoTo53 then 1 else 2 * Spacing(n / 2)
  }

  /** The multiple of q nearest to n, a tie going to the even multiple. */
  function RoundToMultiple(n: nat, q: nat): nat
    requires q >= 1
  {
    var m := n / q;
    var r := n % q;
    if 2 * r > q || (2 * r == q && m % 2 == 1) then (m + 1) * q else m * q
  }

  /** The multiple of the spacing nearest to n, a tie going to the even
      multiple (roundTiesToEven), with the exponent left unbounded. */
  function NearestDouble(n: nat): nat {
    RoundToMultiple(n, Spacing(n))
  }

  const TwoTo256: nat := 0x1_0000_0000_0000_0000_0000_0000_0000_0000_0000_0000_0000_0000_0000_0000_0000_0000

  /** 2^1024: a value that rounds to it or beyond is too large for a double. */
  const DoubleOverflow: nat := TwoTo256 * TwoTo256 * TwoTo256 * TwoTo256

  /** The Number value for a non-negative mathematical value n. */
  function RoundToNumber(n: nat): Number {
    var d := NearestDouble(n);
    if d >= DoubleOverflow then Infinite else Finite(d)
  }

  /** Above 2^53 the spacing is 2^(k+1) in the binade [2^(53+k), 2^(54+k)). */
  lemma {:induction false} SpacingOfBinade(n: nat, k: nat)
    requires TwoTo53 * Pow2(k) <= n < TwoTo53 * Pow2(k + 1)
    ensures Spacing(n) == Pow2(k + 1)
  {
    if k == 0 {
      assert n / 2 < TwoTo53;
    } else {
      assert TwoTo53 * Pow2(k) == 2 * (TwoTo53 * Pow2(k - 1));
      assert TwoTo53 * Pow2(k + 1) == 2 * (TwoTo53 * Pow2(k));
      SpacingOfBinade(n / 2, k - 1);
    }
  }

  /** From 2^53 up, n has 53 significant bits at its spacing: n / Spacing(n)
      lies in [2^52, 2^53), so the multiples of the spacing near n are
      exactly the doubles there. */
  lemma {:induction false} SpacingSignificand(n: nat)
    requires n >= TwoTo53
    ensures Spacing(n) * (TwoTo53 / 2) <= n < Spacing(n) * TwoTo53
    decreases n
  {
    var h := n / 2;
    if h < TwoTo53 {
      assert Spacing(n) == 2;
    } else {
      SpacingSignificand(h);
      var s := Spacing(h);
      assert Spacing(n) == 2 * s;
      assert n < 2 * h + 2;
      assert h <= s * TwoTo53 - 1;
    }
  }

  function Dist(a: nat, b: nat): nat {
    if a <= b then b - a else a - b
  }

  /** The rounded value is a multiple of the spacing, at most half a spacing
      from n, and an even multiple on a tie; below 2^53 it is n itself. */
  lemma NearestDoubleIsNearest(n: nat)
    ensures NearestDouble(n) % Spacing(n) == 0
    ensures 2 * Dist(NearestDouble(n), n) <= Spacing(n)
    ensures 2 * Dist(NearestDouble(n), n) == Spacing(n) ==> (NearestDouble(n) / Spacing(n)) % 2 == 0
    ensures n < TwoTo53 ==> NearestDouble(n) == n
  {
    RoundedNearest(n, Spacing(n));
    if n < TwoTo53 {
      DivModUnique(n, 1, n, 0);
    }
  }

  lemma RoundedNearest(n: nat, q: nat)
    requires q >= 1
    ensures RoundToMultiple(n, q) % q == 0 && 2 * Dist(RoundToMultiple(n, q), n) <= q
    ensures 2 * Dist(RoundToMultiple(n, q), n) == q ==> (RoundToMultiple(n, q) / q) % 2 == 0
  {
    var m, r := n / q, n % q;
    assert n == m * q + r;
    RoundedParts(n, q, m, r, RoundToMultiple(n, q));
  }

  lemma RoundedParts(n: nat, q: nat, m: nat, r: nat, d: nat)
    requires q >= 1 && n == m * q + r && r < q
    requires d == if 2 * r > q || (2 * r == q && m % 2 == 1) then (m + 1) * q else m * q
    ensures d % q == 0 && 2 * Dist(d, n) <= q
    ensures 2 * Dist(d, n) == q ==> (d / q) % 2 == 0
  {
    if 2 * r > q || (2 * r == q && m % 2 == 1) {
      RoundUp(n, q, m, r);
    } else {
      RoundDown(n, q, m, r);
    }
  }

  lemma RoundUp(n: nat, q: nat, m: nat, r: nat)
    requires q >= 1 && n == m * q + r && r < q
    ensures ((m + 1) * q) % q == 0 && ((m + 1) * q) / q == m + 1
    ensures (m + 1) * q == n + (q - r)
  {
    MultipleDiv(m + 1, q);
    assert (m + 1) * q == m * q + q;
  }

  lemma RoundDown(n: nat, q: nat, m: nat, r: nat)
    requires q >= 1 && n == m * q + r && r < q
    ensures (m * q) % q == 0 && (m * q) / q == m
    ensures m * q == n - r
  {
    MultipleDiv(m, q);
  }

  /** Division by q of a * q + r, with r below q, gives a and leaves r. */
  lemma DivModUnique(x: nat, q: nat, a: nat, r: nat)
    requires q >= 1 && x == a * q + r && r < q
    ensures x / q == a && x % q == r
  {
    var a', r' := x / q, x % q;
    assert x == a' * q + r';
    if a' > a {
      MulStep(a, a', q);
    } else if a' < a {
      MulStep(a', a, q);
    }
  }

  lemma MulStep(a: nat, b: nat, q: nat)
    requires a < b
    ensures a * q + q <= b * q
  {
    assert b * q == a * q + q + (b - a - 1) * q;
  }

  lemma MultipleDiv(m: nat, q: nat)
    requires q >= 1
    ensures (m * q) % q == 0 && (m * q) / q == m
  {
    DivModUnique(m * q, q, m, 0);
  }

  /** From 2^(53+j) up, the spacing is a multiple of 2^j. */
  lemma {:induction false} SpacingMultiple(n: nat, j: nat)
    requires n >= TwoTo53 * Pow2(j)
    ensures Spacing(n) % Pow2(j) == 0
    decreases j
  {
    if j > 0 {
      assert TwoTo53 * Pow2(j) == 2 * (TwoTo53 * Pow2(j - 1));
      SpacingMultiple(n / 2, j - 1);
      var c := Spacing(n / 2) / Pow2(j - 1);
      assert Spacing(n / 2) == c * Pow2(j - 1);
      assert Spacing(n) == c * Pow2(j);
      MultipleDiv(c, Pow2(j));
    }
  }

  /** From 2^69 up, every double is a multiple of 2^16, and so is a value
      rounded to one: its code unit is 0, as is Infinity's. */
  lemma LargeCodeUnit(n: nat)
    requires n >= TwoTo53 * 0x1_0000
    ensures ToUint16(RoundToNumber(n)) == 0
  {
    var q := Spacing(n);
    assert q % 0x1_0000 == 0 by {
      Pow2Of16();
      SpacingMultiple(n, 16);
    }
    assert NearestDouble(n) % 0x1_0000 == 0 by {
      NearestDoubleIsNearest(n);
      DividesTrans(NearestDouble(n), q, 0x1_0000);
    }
  }

  lemma Pow2Of16()
    ensures Pow2(16) == 0x1_0000
  {
    assert Pow2(4) == 16;
    assert Pow2(8) == 16 * 16 * Pow2(0) * 1;
    assert Pow2(12) == 16 * Pow2(8);
  }

  /** A multiple of a multiple of p is a multiple of p. */
  lemma DividesTrans(d: nat, q: nat, p: nat)
    requires p >= 1 && q >= 1 && d % q == 0 && q % p == 0
    ensures d % p == 0
  {
    var a := d / q;
    var b := q / p;
    assert d == a * q;
    assert q == b * p;
    assert d == (a * b) * p;
    MultipleDiv(a * b, p);
  }

  /** The index of the first exponent letter, or the length. */
  function ExponentAt(s: string): (i: nat)
    ensures i <= |s|
    ensures forall j :: 0 <= j < i ==> s[j] != 'e' && s[j] != 'E'
    ensures i < |s| ==> s[i] == 'e' || s[i] == 'E'
  {
    if s == [] then 0 else if s[0] == 'e' || s[0] == 'E' then 0 else 1 + ExponentAt(s[1..])
  }

  /** ToNumber of a string of word characters (\w holds no sign, dot or
      white space): "Infinity"; a 0x, 0o or 0b literal; decimal digits; or
      decimal digits with a decimal exponent. Anything else is NaN. The
      literal's exact value is rounded to the nearest double. */
  function StringToNumber(dec: string): Number {
    if dec == "Infinity" then Infinite
    else if |dec| > 2 && dec[0] == '0' && (dec[1] == 'x' || dec[1] == 'X') then
      (if InRadix(dec[2..], 16) then RoundToNumber(RadixValue(dec[2..], 16)) else NotANumber)
    else if |dec| > 2 && dec[0] == '0' && (dec[1] == 'o' || dec[1] == 'O') then
      (if InRadix(dec[2..], 8) then RoundToNumber(RadixValue(dec[2..], 8)) else NotANumber)
    else if |dec| > 2 && dec[0] == '0' && (dec[1] == 'b' || dec[1] == 'B') then
      (if InRadix(dec[2..], 2) then RoundToNumber(RadixValue(dec[2..], 2)) else NotANumber)
    else if dec != [] && InRadix(dec, 10) then RoundToNumber(RadixValue(dec, 10))
    else
      var i := ExponentAt(dec);
      if 0 < i < |dec| - 1 && InRadix(dec[..i], 10) && InRadix(dec[i + 1..], 10) then
        RoundToNumber(RadixValue(dec[..i], 10) * Pow10(RadixValue(dec[i + 1..], 10)))
      else NotANumber
  }

  /** ToUint16: NaN and the infinities become 0, integers wrap modulo 2^16. */
  function ToUint16(n: Number): (u: nat)
    ensures u < 0x1_0000
  {
    match n
    case Finite(k) => k % 0x1_0000
    case _ => 0
  }

  /** String.fromCharCode(dec). A code unit in the surrogate range has no
      character of its own here and is read as U+FFFD. */
  function FromCharCode(dec: string): char {
    var u := ToUint16(StringToNumber(dec));
    if 0xD800 <= u < 0xE000 then '\U{FFFD}' else u as char
  }

  lemma DecimalIsRadix10(s: string)
    requires AllDigits(s)
    ensures InRadix(s, 10) && RadixValue(s, 10) == DecimalValue(s)
  {
    if s != [] {
      DecimalIsRadix10(s[..|s| - 1]);
    }
  }

  /** The decimal digits of a number read back as the code unit of the
      double nearest to it. */
  lemma FromCharCodeDigits(n: nat)
    ensures StringToNumber(NatToDecimal(n)) == RoundToNumber(n)
  {
    var d := NatToDecimal(n);
    DecimalRoundTrip(n);
    DecimalIsRadix10(d);
    assert d != "Infinity" by {
      assert IsDigit(d[0]);
    }
  }

  /** Below 2^53 the digits read back as the number itself, wrapped modulo
      2^16. */
  lemma FromCharCodeDecimal(n: nat)
    requires n < TwoTo53
    requires !(0xD800 <= n % 0x1_0000 < 0xE000)
    ensures FromCharCode(NatToDecimal(n)) == (n % 0x1_0000) as char
  {
    FromCharCodeDigits(n);
    NearestDoubleIsNearest(n);
  }

  /** From 2^69 up, a decimal reference always reads as U+0000. */
  lemma FromCharCodeLarge(n: nat)
    requires n >= TwoTo53 * 0x1_0000
    ensures FromCharCode(NatToDecimal(n)) == '\U{0000}'
  {
    FromCharCodeDigits(n);
    LargeCodeUnit(n);
  }

  /** Digits whose nearest double is a multiple of 2^16 read as U+0000. */
  lemma FromCharCodeNul(n: nat)
    requires NearestDouble(n) % 0x1_0000 == 0
    ensures FromCharCode(NatToDecimal(n)) == '\U{0000}'
  {
    FromCharCodeDigits(n);
  }

  /** 2^59 + 33, whose low sixteen bits are those of '!', rounds to the
      double 2^59 and reads as U+0000. */
  lemma FromCharCodeRounded()
    ensures FromCharCode(NatToDecimal(0x800_0000_0000_0021)) == '\U{0000}'
  {
    RoundedToTwoTo59();
    FromCharCodeNul(0x800_0000_0000_0021);
  }

  /** A reference that starts with anything but a digit, such as a named
      entity's name, is not a number (only "Infinity" is, and that is
      infinite): either way it reads as U+0000. */
  lemma FromCharCodeNaN(dec: string)
    requires dec != [] && !IsDigit(dec[0])
    ensures StringToNumber(dec) == if dec == "Infinity" then Infinite else NotANumber
    ensures FromCharCode(dec) == '\U{0000}'
  {
    assert !InRadix(dec, 10) by {
      assert DigitOf(dec[0]) >= 10;
    }
    var i := ExponentAt(dec);
    if 0 < i < |dec| - 1 {
      assert !InRadix(dec[..i], 10) by {
        assert dec[..i][0] == dec[0];
        assert DigitOf(dec[..i][0]) >= 10;
      }
    }
  }

  /** A radix prefix with no digits after it, such as "0x", is not a
      number either and reads as U+0000. */
  lemma FromCharCodeBarePrefix(dec: string)
    requires |dec| == 2 && dec[0] == '0' && dec[1] in "xXoObB"
    ensures StringToNumber(dec) == NotANumber
    ensures FromCharCode(dec) == '\U{0000}'
  {
    assert !InRadix(dec, 10) by {
      assert DigitOf(dec[1]) >= 10;
    }
  }

  lemma RoundedToTwoTo59()
    ensures NearestDouble(0x800_0000_0000_0021) == 0x800_0000_0000_0000
  {
    var n := 0x800_0000_0000_0021;
    assert Spacing(n) == 128 by {
      assert Pow2(6) == 64 && Pow2(7) == 128;
      SpacingOfBinade(n, 6);
    }
    assert n / 128 == 0x10_0000_0000_0000 && n % 128 == 0x21;
  }

  // ---------------------------------------------------------------------------
  // decodeHtmlCharacters

  /** The length of the leading run of word characters. */
  function WordRun(s: string): (n: nat)
    ensures n <= |s|
    ensures forall i :: 0 <= i < n ==> IsWordChar(s[i])
    ensures n < |s| ==> !IsWordChar(s[n])
  {
    if s != [] && IsWordChar(s[0]) then 1 + WordRun(s[1..]) else 0
  }

  /** str.replace(/&#(\w+)(^\w|;)?/g, (match, dec) => String.fromCharCode(dec)).
      The `^\w` alternative can only match at the start of the input, never
      after "&#", so a match is "&#", the longest run of word characters,
      and a ';' if one follows. */
  function DecodeHtmlCharacters(s: string): (r: string)
    decreases |s|
  {
    if s == [] then []
    else if |s| >= 3 && s[0] == '&' && s[1] == '#' && IsWordChar(s[2]) then
      var n := WordRun(s[2..]);
      var end := if 2 + n < |s| && s[2 + n] == ';' then 3 + n else 2 + n;
      [FromCharCode(s[2..2 + n])] + DecodeHtmlCharacters(s[end..])
    else [s[0]] + DecodeHtmlCharacters(s[1..])
  }

  /** Text without '&' has nothing to decode. */
  lemma {:induction false} DecodePlain(s: string)
    requires '&' !in s
    ensures DecodeHtmlCharacters(s) == s
  {
    if s != [] {
      assert s[0] != '&';
      assert forall x :: x in s[1..] ==> x in s;
      DecodePlain(s[1..]);
    }
  }

  /** One reference: "&#", word characters not followed by another, and an
      optional ';' decode to one character. */
  lemma DecodeReference(dec: string, semi: bool, rest: string)
    requires dec != [] && forall i :: 0 <= i < |dec| ==> IsWordChar(dec[i])
    requires semi || rest == [] || (!IsWordChar(rest[0]) && rest[0] != ';')
    requires !semi ==> rest == [] || !IsWordChar(rest[0])
    ensures DecodeHtmlCharacters("&#" + dec + (if semi then ";" else "") + rest) == [FromCharCode(dec)] + DecodeHtmlCharacters(rest)
  {
    var tail := (if semi then ";" else "") + rest;
    var s := "&#" + dec + (if semi then ";" else "") + rest;
    assert s == "&#" + (dec + tail);
    var end := if semi then 3 + |dec| else 2 + |dec|;
    assert s[2..] == dec + tail;
    assert WordRun(s[2..]) == |dec| && s[2..2 + |dec|] == dec by {
      assert s[2..][..|dec|] == dec;
      WordRunOf(dec, s[2..]);
    }
    assert end == (if 2 + |dec| < |s| && s[2 + |dec|] == ';' then 3 + |dec| else 2 + |dec|) by {
      assert 2 + |dec| < |s| ==> s[2 + |dec|] == tail[0];
    }
    assert s[end..] == rest by {
      assert s[2 + |dec|..] == tail;
    }
    DecodeAt(s, |dec|, end);
  }

  /** The step DecodeHtmlCharacters takes at a reference. */
  lemma DecodeAt(s: string, n: nat, end: nat)
    requires |s| >= 3 && s[0] == '&' && s[1] == '#' && IsWordChar(s[2])
    requires WordRun(s[2..]) == n && end == (if 2 + n < |s| && s[2 + n] == ';' then 3 + n else 2 + n)
    ensures DecodeHtmlCharacters(s) == [FromCharCode(s[2..2 + n])] + DecodeHtmlCharacters(s[end..])
  {
  }

  lemma {:induction false} WordRunOf(dec: string, t: string)
    requires |dec| <= |t| && t[..|dec|] == dec
    requires forall i :: 0 <= i < |dec| ==> IsWordChar(dec[i])
    requires |dec| < |t| ==> !IsWordChar(t[|dec|])
    ensures WordRun(t) == |dec|
  {
    if dec != [] {
      assert t[1..][..|dec| - 1] == dec[1..];
      WordRunOf(dec[1..], t[1..]);
    }
  }

  /** A character written as a decimal reference "&#N;". */
  function NumericReference(c: char): string {
    "&#" + NatToDecimal(c as nat) + ";"
  }

  /** Every character written as a decimal reference. */
  function EncodeReferences(s: string): string {
    if s == [] then [] else NumericReference(s[0]) + EncodeReferences(s[1..])
  }

  /** A decimal reference with its ';' decodes to the character its digits
      denote. */
  lemma DecodeDecimal(d: string, tail: string)
    requires d != [] && AllDigits(d)
    ensures DecodeHtmlCharacters("&#" + d + ";" + tail) == [FromCharCode(d)] + DecodeHtmlCharacters(tail)
  {
    assert forall i :: 0 <= i < |d| ==> IsWordChar(d[i]);
    DecodeReference(d, true, tail);
  }

  /** A character of the Basic Multilingual Plane is read back from its
      code written in decimal. */
  lemma FromCharCodeOfChar(c: char)
    requires (c as int) < 0x1_0000
    ensures FromCharCode(NatToDecimal(c as nat)) == c
  {
    var n := c as nat;
    assert n < TwoTo53 && n % 0x1_0000 == n;
    FromCharCodeDecimal(n);
    assert (n as char) == c;
  }

  /** One encoded character decodes back to itself. */
  lemma DecodeEncodedChar(c: char, tail: string)
    requires (c as int) < 0x1_0000
    ensures DecodeHtmlCharacters(NumericReference(c) + tail) == [c] + DecodeHtmlCharacters(tail)
  {
    DecodeDecimal(NatToDecimal(c as nat), tail);
    FromCharCodeOfChar(c);
  }

  /** Decoding undoes encoding for text of the Basic Multilingual Plane. */
  lemma {:induction false} DecodeEncodedReferences(s: string)
    requires forall i :: 0 <= i < |s| ==> (s[i] as int) < 0x1_0000
    ensures DecodeHtmlCharacters(EncodeReferences(s)) == s
  {
    if s != [] {
      DecodeEncodedChar(s[0], EncodeReferences(s[1..]));
      DecodeEncodedReferences(s[1..]);
    }
  }

  // ---------------------------------------------------------------------------
  // The other clean-up steps

  /** .replace(/&(newline|tab);/gi, ''). Both entities start with '&',
      which case folding maps to nothing else, so only an '&' can start a
      match. */
  function StripControlEntities(s: string): (r: string)
    ensures |r| <= |s|
    decreases |s|
  {
    if s == [] then []
    else if s[0] == '&' && StartsWithIgnoreCase(s, "&newline;") then StripControlEntities(s[9..])
    else if s[0] == '&' && StartsWithIgnoreCase(s, "&tab;") then StripControlEntities(s[5..])
    else [s[0]] + StripControlEntities(s[1..])
  }

  lemma {:induction false} StripControlEntitiesPlain(s: string)
    requires '&' !in s
    ensures StripControlEntities(s) == s
  {
    if s != [] {
      assert s[0] != '&';
      assert forall x :: x in s[1..] ==> x in s;
      StripControlEntitiesPlain(s[1..]);
    }
  }

  /** The class [\u0000-\u001F\u007F-\u009F\u2000-\u200D\uFEFF]. */
  predicate IsControl(c: char) {
    c <= '\U{001F}' || ('\U{007F}' <= c <= '\U{009F}') || ('\U{2000}' <= c <= '\U{200D}') || c == '\U{FEFF}'
  }

  /** .replace(ctrlCharactersRegex, ''). */
  function StripControls(s: string): string {
    if s == [] then [] else (if IsControl(s[0]) then [] else [s[0]]) + StripControls(s[1..])
  }

  /** No control character survives, and every other character does. */
  lemma {:induction false} StripControlsMeaning(s: string)
    ensures forall c :: c in StripControls(s) <==> c in s && !IsControl(c)
  {
    if s != [] {
      StripControlsMeaning(s[1..]);
      assert forall c :: c in s <==> c == s[0] || c in s[1..];
    }
  }

  lemma {:induction false} StripControlsPlain(s: string)
    requires forall i :: 0 <= i < |s| ==> !IsControl(s[i])
    ensures StripControls(s) == s
  {
    if s != [] {
      StripControlsPlain(s[1..]);
    }
  }

  /** The string sanitizeURL inspects. */
  function Cleaned(url: string): string {
    Trim(StripControls(StripControlEntities(DecodeHtmlCharacters(url))))
  }

  /** A trimmed string's characters are characters of the untrimmed one. */
  lemma TrimIsInfix(s: string)
    ensures forall c :: c in Trim(s) ==> c in s
  {
    var a := TrimStart(s);
    assert forall c :: c in a ==> c in s;
  }

  /** The inspected string holds no control character and neither starts
      nor ends with white space. */
  lemma CleanedShape(url: string)
    ensures forall i :: 0 <= i < |Cleaned(url)| ==> !IsControl(Cleaned(url)[i])
    ensures Cleaned(url) == [] || (!IsSpace(Cleaned(url)[0]) && !IsSpace(Cleaned(url)[|Cleaned(url)| - 1]))
  {
    var s := StripControls(StripControlEntities(DecodeHtmlCharacters(url)));
    StripControlsMeaning(StripControlEntities(DecodeHtmlCharacters(url)));
    TrimIsInfix(s);
  }

  // ---------------------------------------------------------------------------
  // The scheme test and sanitizeURL

  /** /^(?:\w+script|data):/i.test(s), as the matcher finds it: "data:", or
      a run of word characters ending in "script" followed by ':'. Since
      "script" is made of word characters and ':' is not, the run must be
      the whole leading run of word characters. */
  predicate IsScriptOrData(s: string) {
    StartsWithIgnoreCase(s, "data:") ||
    (var n := WordRun(s); n >= 7 && n < |s| && s[n] == ':' && EqualsIgnoreCase(s[n - 6..n], "script"))
  }

  predicate AllWord(s: string) {
    forall i :: 0 <= i < |s| ==> IsWordChar(s[i])
  }

  /** The pattern read literally: some k >= 1 word characters, then
      "script:", letters in any case. */
  ghost predicate ScriptPattern(s: string) {
    exists k :: 1 <= k && k + 7 <= |s| && AllWord(s[..k]) && EqualsIgnoreCase(s[k..k + 7], "script:")
  }

  /** The scan agrees with the pattern read literally. */
  lemma IsScriptOrDataMeaning(s: string)
    ensures IsScriptOrData(s) <==> StartsWithIgnoreCase(s, "data:") || ScriptPattern(s)
  {
    var n := WordRun(s);
    if n >= 7 && n < |s| && s[n] == ':' && EqualsIgnoreCase(s[n - 6..n], "script") {
      var k := n - 6;
      assert AllWord(s[..k]);
      assert s[k..k + 7] == s[n - 6..n] + [s[n]];
      assert EqualsIgnoreCase(s[k..k + 7], "script:");
    }
    if ScriptPattern(s) {
      var k :| 1 <= k && k + 7 <= |s| && AllWord(s[..k]) && EqualsIgnoreCase(s[k..k + 7], "script:");
      ScriptRun(s, k);
    }
  }

  /** Where "script:" follows k word characters, the leading word run ends
      just before the ':'. */
  lemma ScriptRun(s: string, k: nat)
    requires 1 <= k && k + 7 <= |s| && AllWord(s[..k]) && EqualsIgnoreCase(s[k..k + 7], "script:")
    ensures WordRun(s) == k + 6 && s[k + 6] == ':' && EqualsIgnoreCase(s[k..k + 6], "script")
  {
    var t := s[k..k + 7];
    assert UpperAscii(t[6]) == UpperAscii(':');
    forall i | 0 <= i < k + 6 ensures IsWordChar(s[i]) {
      if i >= k {
        assert t[i - k] == s[i];
        assert UpperAscii(t[i - k]) == UpperAscii("script:"[i - k]);
      } else {
        assert s[..k][i] == s[i];
      }
    }
    WordRunOf(s[..k + 6], s);
    forall i | 0 <= i < 6 ensures UpperAscii(s[k..k + 6][i]) == UpperAscii("script"[i]) {
      assert s[k..k + 6][i] == t[i] && "script"[i] == "script:"[i];
    }
  }

  /** FALLBACK_URL. */
  const FallbackUrl: string := "javascript:void(0)"

  /** sanitizeURL(url): a falsy URL and one whose cleaned form has a script
      or data scheme give the fallback; any other string is returned as it
      was given, not cleaned. A truthy non-string has no `replace` and
      throws (None). */
  function SanitizeURL(url: JsValue): (r: Option<string>)
    ensures r.None? <==> Truthy(url) && !url.Str?
  {
    if !Truthy(url) then Some(FallbackUrl)
    else if !url.Str? then None
    else if IsScriptOrData(Cleaned(url.s)) then Some(FallbackUrl)
    else Some(url.s)
  }

  /** The result is the fallback or the URL itself, and the fallback exactly
      when the URL is falsy or its cleaned form has a script or data scheme. */
  lemma SanitizeURLOutcome(url: JsValue)
    ensures SanitizeURL(url).Some? ==> SanitizeURL(url).value == FallbackUrl || SanitizeURL(url).value == url.s
    ensures SanitizeURL(url) == Some(FallbackUrl) <==>
      !Truthy(url) || (url.Str? && (url.s == FallbackUrl || IsScriptOrData(Cleaned(url.s))))
  {
    FallbackRefused();
  }

  /** The fallback is itself refused, so sanitizing is idempotent. */
  lemma SanitizeIdempotent(url: JsValue)
    requires SanitizeURL(url).Some?
    ensures SanitizeURL(Str(SanitizeURL(url).value)) == SanitizeURL(url)
  {
    FallbackRefused();
  }

  /** Text the clean-up steps leave alone: no '&', no control character and
      no white space at either end. */
  predicate Inert(s: string) {
    '&' !in s &&
    (forall i :: 0 <= i < |s| ==> !IsControl(s[i])) &&
    (s == [] || (!IsSpace(s[0]) && !IsSpace(s[|s| - 1])))
  }

  /** Text whose references decode to inert text is inspected as decoded. */
  lemma CleanedDecoded(url: string, p: string)
    requires DecodeHtmlCharacters(url) == p && Inert(p)
    ensures Cleaned(url) == p
  {
    StripControlEntitiesPlain(p);
    StripControlsPlain(p);
    TrimTrimmed(p);
  }

  /** Inert text is inspected as it is. */
  lemma CleanedPlain(s: string)
    requires Inert(s)
    ensures Cleaned(s) == s
  {
    DecodePlain(s);
    CleanedDecoded(s, s);
  }

  lemma InertConcat(a: string, b: string)
    requires Inert(a) && Inert(b)
    ensures Inert(a + b)
  {
    assert forall x :: x in a + b ==> x in a || x in b;
    assert forall i :: |a| <= i < |a + b| ==> (a + b)[i] == b[i - |a|];
  }

  /** Word characters are inert. */
  lemma InertWord(w: string)
    requires AllWord(w)
    ensures Inert(w)
  {
    assert forall i :: 0 <= i < |w| ==> w[i] != '&';
  }

  /** Word characters followed by "script:" are refused, whatever follows. */
  lemma ScriptScheme(w: string, rest: string)
    requires w != [] && AllWord(w)
    ensures IsScriptOrData(w + "script:" + rest)
  {
    var s := w + "script:" + rest;
    var k := |w|;
    assert s[..k] == w;
    assert s[k..k + 7] == "script:";
    IsScriptOrDataMeaning(s);
  }

  lemma FallbackCleaned()
    ensures Cleaned(FallbackUrl) == FallbackUrl
  {
    assert FallbackUrl == "javascript" + ":void(0)";
    InertWord("javascript");
    InertConcat("javascript", ":void(0)");
    CleanedPlain(FallbackUrl);
  }

  lemma FallbackScheme()
    ensures IsScriptOrData(FallbackUrl)
  {
    assert FallbackUrl == "java" + "script:" + "void(0)";
    ScriptScheme("java", "void(0)");
  }

  lemma FallbackRefused()
    ensures IsScriptOrData(Cleaned(FallbackUrl))
  {
    FallbackCleaned();
    FallbackScheme();
  }

  lemma {:induction false} StripControlsConcat(a: string, b: string)
    ensures StripControls(a + b) == StripControls(a) + StripControls(b)
  {
    if a != [] {
      assert (a + b)[1..] == a[1..] + b;
      StripControlsConcat(a[1..], b);
    } else {
      assert a + b == b;
    }
  }

  lemma DropControl(c: char, b: string)
    requires IsControl(c)
    ensures StripControls([c] + b) == StripControls(b)
  {
    assert ([c] + b)[1..] == b;
  }

  lemma StripAround(a: string, c: char, b: string)
    requires IsControl(c)
    ensures StripControls(a + [c] + b) == StripControls(a) + StripControls(b)
  {
    StripControlsConcat(a, [c] + b);
    assert a + [c] + b == a + ([c] + b);
    DropControl(c, b);
  }

  /** One control character between clean text is dropped. */
  lemma StripOneControl(a: string, c: char, b: string)
    requires forall i :: 0 <= i < |a| ==> !IsControl(a[i])
    requires forall i :: 0 <= i < |b| ==> !IsControl(b[i])
    requires IsControl(c)
    ensures StripControls(a + [c] + b) == a + b
  {
    StripAround(a, c, b);
    StripControlsPlain(a);
    StripControlsPlain(b);
  }

  /** A control character between two non-empty inert texts is not seen. */
  lemma CleanedAroundControl(a: string, c: char, b: string)
    requires Inert(a) && Inert(b) && a != [] && b != [] && IsControl(c)
    ensures Cleaned(a + [c] + b) == a + b
  {
    var s := a + [c] + b;
    assert forall x :: x in s ==> x in a || x == c || x in b;
    DecodePlain(s);
    CleanedDecodedAroundControl(s, a, c, b);
  }

  /** The same holds when the control character comes out of decoding. */
  lemma CleanedDecodedAroundControl(url: string, a: string, c: char, b: string)
    requires Inert(a) && Inert(b) && a != [] && b != [] && IsControl(c)
    requires DecodeHtmlCharacters(url) == a + [c] + b
    ensures Cleaned(url) == a + b
  {
    var s := a + [c] + b;
    assert StripControlEntities(s) == s by {
      assert forall x :: x in s ==> x in a || x == c || x in b;
      StripControlEntitiesPlain(s);
    }
    assert StripControls(s) == a + b by {
      StripOneControl(a, c, b);
    }
    assert Trim(a + b) == a + b by {
      InertConcat(a, b);
      TrimTrimmed(a + b);
    }
  }

  lemma DecodePlainStep(s: string)
    requires s != [] && s[0] != '&'
    ensures DecodeHtmlCharacters(s) == [s[0]] + DecodeHtmlCharacters(s[1..])
  {
  }

  /** Text without '&' is kept as it is in front of what follows. */
  lemma {:induction false} DecodePlainPrefix(a: string, t: string)
    requires '&' !in a
    ensures DecodeHtmlCharacters(a + t) == a + DecodeHtmlCharacters(t)
  {
    if a != [] {
      var s := a + t;
      assert DecodeHtmlCharacters(s) == [a[0]] + DecodeHtmlCharacters(a[1..] + t) by {
        assert s[0] == a[0] != '&';
        assert s[1..] == a[1..] + t;
        DecodePlainStep(s);
      }
      assert '&' !in a[1..] by {
        assert forall x :: x in a[1..] ==> x in a;
      }
      DecodePlainPrefix(a[1..], t);
      assert [a[0]] + (a[1..] + DecodeHtmlCharacters(t)) == a + DecodeHtmlCharacters(t) by {
        assert a == [a[0]] + a[1..];
      }
    } else {
      assert a + t == t;
    }
  }

  /** A decimal reference that reads as U+0000, put inside a refused inert
      URL, does not get it through: the NUL is stripped as a control
      character. */
  lemma NulReferenceInSchemeRefused(a: string, d: string, b: string)
    requires Inert(a) && Inert(b) && a != [] && b != []
    requires d != [] && AllDigits(d) && FromCharCode(d) == '\U{0000}'
    requires IsScriptOrData(a + b)
    ensures SanitizeURL(Str(a + "&#" + d + ";" + b)) == Some(FallbackUrl)
  {
    var url := a + "&#" + d + ";" + b;
    assert url == a + ("&#" + d + ";" + b);
    DecodePlainPrefix(a, "&#" + d + ";" + b);
    DecodeDecimal(d, b);
    DecodePlain(b);
    assert DecodeHtmlCharacters(url) == a + ['\U{0000}'] + b;
    CleanedDecodedAroundControl(url, a, '\U{0000}', b);
  }

  /** "java&#576460752303423521;script:" is refused: the reference's value
      2^59 + 33 rounds to the double 2^59, which reads as U+0000. */
  lemma RoundedReferenceInJavascriptRefused()
    ensures SanitizeURL(Str("java" + "&#" + NatToDecimal(0x800_0000_0000_0021) + ";" + "script:")) == Some(FallbackUrl)
  {
    InertWord("java");
    assert "script:" == "script" + ":";
    InertWord("script");
    InertConcat("script", ":");
    ScriptScheme("java", "");
    assert "java" + "script:" + "" == "java" + "script:";
    FromCharCodeRounded();
    NulReferenceInSchemeRefused("java", NatToDecimal(0x800_0000_0000_0021), "script:");
  }

  /** A control character, such as a tab, put anywhere inside a refused
      inert URL does not get it through. */
  lemma ControlInSchemeRefused(a: string, c: char, b: string)
    requires Inert(a) && Inert(b) && a != [] && b != [] && IsControl(c)
    requires IsScriptOrData(a + b)
    ensures SanitizeURL(Str(a + [c] + b)) == Some(FallbackUrl)
  {
    CleanedAroundControl(a, c, b);
  }

  /** A numeric reference to a character that is neither a control nor white
      space reads as that character. */
  lemma CleanedReference(c: char, rest: string)
    requires (c as int) < 0x1_0000 && Inert([c] + rest)
    ensures Cleaned(NumericReference(c) + rest) == [c] + rest
  {
    assert forall x :: x in rest ==> x in [c] + rest;
    DecodePlain(rest);
    DecodeEncodedChar(c, rest);
    CleanedDecoded(NumericReference(c) + rest, [c] + rest);
  }

  /** Writing the first character of a refused inert URL as a numeric
      reference does not get it through. */
  lemma ReferenceInSchemeRefused(c: char, rest: string)
    requires (c as int) < 0x1_0000 && Inert([c] + rest)
    requires IsScriptOrData([c] + rest)
    ensures SanitizeURL(Str(NumericReference(c) + rest)) == Some(FallbackUrl)
  {
    CleanedReference(c, rest);
  }

  /** "java", a tab and "script:" is one such URL. */
  lemma TabInJavascriptRefused()
    ensures SanitizeURL(Str("java" + ['\t'] + "script:")) == Some(FallbackUrl)
  {
    InertWord("java");
    assert "script:" == "script" + ":";
    InertWord("script");
    InertConcat("script", ":");
    ScriptScheme("java", "");
    assert "java" + "script:" + "" == "java" + "script:";
    ControlInSchemeRefused("java", '\t', "script:");
  }

  lemma ReferenceOfJ()
    ensures NumericReference('j') == "&#106;"
  {
    assert NatToDecimal(106) == "106";
  }

  /** "&#106;avascript:" is another: its 'j' is written as a reference. */
  lemma ReferenceInJavascriptRefused()
    ensures SanitizeURL(Str("&#106;" + "avascript:")) == Some(FallbackUrl)
  {
    assert ['j'] + "avascript:" == "javascript" + ":";
    InertWord("javascript");
    InertConcat("javascript", ":");
    ScriptScheme("java", "");
    assert "java" + "script:" + "" == "javascript" + ":";
    ReferenceInSchemeRefused('j', "avascript:");
    ReferenceOfJ();
  }

  lemma HttpsNotScheme(u: string)
    requires u == "https://a"
    ensures !IsScriptOrData(u)
  {
    WordRunOf(u[..5], u);
    assert !StartsWithIgnoreCase(u, "data:") by {
      assert UpperAscii(u[0]) != UpperAscii('d');
    }
  }

  /** An https URL is returned as given. */
  lemma HttpsKept()
    ensures SanitizeURL(Str("https://a")) == Some("https://a")
  {
    CleanedPlain("https://a");
    HttpsNotScheme("https://a");
  }
}

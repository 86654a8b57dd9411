// JavaScript values as the utilities see them, and the string primitives
// (truthiness, String(), ASCII case mapping, the \s and \w character classes,
// UTF-16 length) that the rest of the model builds on.

module JsValues {

  datatype Option<+T> = None | Some(value: T)

  /** A JavaScript value. Numbers are modelled by their integral values plus NaN;
      an object or function is an identity `ref` together with the text that
      String() produces for it. */
  datatype JsValue =
    | Str(s: string)
    | Bool(b: bool)
    | Num(n: int)
    | NaN
    | Null
    | Undef
    | Obj(ref: nat, text: string)
    | Fn(ref: nat, text: string)

  /** ToBoolean: the falsy values are '', false, 0, NaN, null and undefined. */
  predicate Truthy(v: JsValue) {
    match v
    case Str(s) => s != ""
    case Bool(b) => b
    case Num(n) => n != 0
    case NaN => false
    case Null => false
    case Undef => false
    case Obj(_, _) => true
    case Fn(_, _) => true
  }

  /** The `typeof` operator. */
  function TypeOf(v: JsValue): string {
    match v
    case Str(_) => "string"
    case Bool(_) => "boolean"
    case Num(_) => "number"
    case NaN => "number"
    case Null => "object"
    case Undef => "undefined"
    case Obj(_, _) => "object"
    case Fn(_, _) => "function"
  }

  /** The `===` operator: NaN equals nothing, not even itself; objects and
      functions are equal when they are the same one. */
  predicate StrictEquals(a: JsValue, b: JsValue) {
    a != NaN && a == b
  }

  /** The `typeof` tests the utilities make. */
  lemma TypeOfTests(v: JsValue)
    ensures TypeOf(v) == "string" <==> v.Str?
    ensures TypeOf(v) == "object" <==> v.Obj? || v == Null
    ensures TypeOf(v) == "function" <==> v.Fn?
  {
    match v
    case Str(_) =>
      assert "string"[0] != "object"[0] && "string"[0] != "function"[0];
    case Bool(_) =>
      assert "boolean"[0] != "string"[0] && "boolean"[0] != "object"[0] && "boolean"[0] != "function"[0];
    case Num(_) =>
      assert "number"[0] != "string"[0] && "number"[0] != "object"[0] && "number"[0] != "function"[0];
    case NaN =>
      assert "number"[0] != "string"[0] && "number"[0] != "object"[0] && "number"[0] != "function"[0];
    case Null =>
      assert "object"[0] != "string"[0] && "object"[0] != "function"[0];
    case Undef =>
      assert "undefined"[0] != "string"[0] && "undefined"[0] != "object"[0] && "undefined"[0] != "function"[0];
    case Obj(_, _) =>
      assert "object"[0] != "string"[0] && "object"[0] != "function"[0];
    case Fn(_, _) =>
      assert "function"[0] != "string"[0] && "function"[0] != "object"[0];
  }

  predicate IsNullish(v: JsValue) {
    v == Null || v == Undef
  }

  lemma NullishIsFalsy(v: JsValue)
    ensures IsNullish(v) ==> !Truthy(v)
    ensures !Truthy(v) && !IsNullish(v) ==> v in {Str(""), Bool(false), Num(0), NaN}
  {
  }

  /** Reading property `k` of an object whose own properties are `props`: a
      missing property reads as undefined. */
  function Prop(props: map<string, JsValue>, k: string): (v: JsValue)
    ensures k !in props ==> v == Undef
  {
    if k in props then props[k] else Undef
  }

  /** `v || null`. */
  function OrNull(v: JsValue): (r: JsValue)
    ensures Truthy(v) ==> r == v
    ensures !Truthy(v) ==> r == Null
  {
    if Truthy(v) then v else Null
  }

  // ---------------------------------------------------------------------------
  // Decimal digits

  predicate IsDigit(c: char) {
    '0' <= c <= '9'
  }

  predicate AllDigits(s: string) {
    forall i :: 0 <= i < |s| ==> IsDigit(s[i])
  }

  function DigitChar(d: nat): (c: char)
    requires d < 10
    ensures IsDigit(c)
  {
    ['0', '1', '2', '3', '4', '5', '6', '7', '8', '9'][d]
  }

  function DigitValue(c: char): (d: nat)
    requires IsDigit(c)
    ensures d < 10
  {
    (c as int) - ('0' as int)
  }

  /** The value of a string of decimal digits, read left to right. */
  function DecimalValue(s: string): nat
    requires AllDigits(s)
  {
    if s == [] then 0 else DecimalValue(s[..|s| - 1]) * 10 + DigitValue(s[|s| - 1])
  }

  /** Number::toString for a non-negative integer: shortest decimal form. */
  function NatToDecimal(n: nat): (r: string)
    ensures |r| >= 1 && AllDigits(r)
    ensures r[0] == '0' ==> |r| == 1
  {
    if n < 10 then [DigitChar(n)] else NatToDecimal(n / 10) + [DigitChar(n % 10)]
  }

  /** Reading back what NatToDecimal wrote gives the number. */
  lemma {:induction false} DecimalRoundTrip(n: nat)
    ensures DecimalValue(NatToDecimal(n)) == n
  {
    var r := NatToDecimal(n);
    if n >= 10 {
      DecimalRoundTrip(n / 10);
      assert r[..|r| - 1] == NatToDecimal(n / 10);
    }
  }

  function IntToDecimal(n: int): string {
    if n < 0 then "-" + NatToDecimal(-n) else NatToDecimal(n)
  }

  /** String(v): the text a value turns into when it is concatenated or stored
      as an attribute. Numbers are integers here and print as their decimal
      digits, which is String(n) for every integer below 10^21 in size. */
  function ToStr(v: JsValue): string {
    match v
    case Str(s) => s
    case Bool(b) => if b then "true" else "false"
    case Num(n) => IntToDecimal(n)
    case NaN => "NaN"
    case Null => "null"
    case Undef => "undefined"
    case Obj(_, text) => text
    case Fn(_, text) => text
  }

  // ---------------------------------------------------------------------------
  // Characters and strings

  /** The JavaScript WhiteSpace and LineTerminator code points: what trim()
      removes and what the regular-expression class \s matches. */
  predicate IsSpace(c: char) {
    c == '\t' || c == '\n' || c == '\U{000B}' || c == '\U{000C}' || c == '\r' || c == ' '
    || c == '\U{00A0}' || c == '\U{1680}' || ('\U{2000}' <= c <= '\U{200A}')
    || c == '\U{2028}' || c == '\U{2029}' || c == '\U{202F}' || c == '\U{205F}'
    || c == '\U{3000}' || c == '\U{FEFF}'
  }

  predicate NoSpace(s: string) {
    forall i :: 0 <= i < |s| ==> !IsSpace(s[i])
  }

  /** The regular-expression class \w: [A-Za-z0-9_]. */
  predicate IsWordChar(c: char) {
    ('a' <= c <= 'z') || ('A' <= c <= 'Z') || IsDigit(c) || c == '_'
  }

  function UpperAscii(c: char): (u: char)
    ensures !('a' <= u <= 'z')
  {
    if 'a' <= c <= 'z' then ((c as int) - 32) as char else c
  }

  function LowerAscii(c: char): (l: char)
    ensures !('A' <= l <= 'Z')
  {
    if 'A' <= c <= 'Z' then ((c as int) + 32) as char else c
  }

  function LowerAsciiString(s: string): (r: string)
    ensures |r| == |s|
    ensures forall i :: 0 <= i < |s| ==> r[i] == LowerAscii(s[i])
  {
    if s == [] then [] else [LowerAscii(s[0])] + LowerAsciiString(s[1..])
  }

  function UpperAsciiString(s: string): (r: string)
    ensures |r| == |s|
    ensures forall i :: 0 <= i < |s| ==> r[i] == UpperAscii(s[i])
  {
    if s == [] then [] else [UpperAscii(s[0])] + UpperAsciiString(s[1..])
  }

  /** Case-insensitive equality of a regular expression without the `u` flag,
      against an ASCII pattern: characters are compared after upper-casing,
      and a character at or above U+0080 never matches an ASCII one, so only
      ASCII letters fold. */
  predicate EqualsIgnoreCase(s: string, t: string) {
    |s| == |t| && forall i :: 0 <= i < |s| ==> UpperAscii(s[i]) == UpperAscii(t[i])
  }

  predicate StartsWithIgnoreCase(s: string, prefix: string) {
    |prefix| <= |s| && EqualsIgnoreCase(s[..|prefix|], prefix)
  }

  /** String.prototype.trimStart: drops the leading run of white space. */
  function TrimStart(s: string): (r: string)
    ensures |r| <= |s| && r == s[|s| - |r|..]
    ensures r == [] || !IsSpace(r[0])
    ensures forall i :: 0 <= i < |s| - |r| ==> IsSpace(s[i])
  {
    if s != [] && IsSpace(s[0]) then TrimStart(s[1..]) else s
  }

  /** String.prototype.trimEnd: drops the trailing run of white space. */
  function TrimEnd(s: string): (r: string)
    ensures |r| <= |s| && r == s[..|r|]
    ensures r == [] || !IsSpace(r[|r| - 1])
    ensures forall i :: |r| <= i < |s| ==> IsSpace(s[i])
  {
    if s != [] && IsSpace(s[|s| - 1]) then TrimEnd(s[..|s| - 1]) else s
  }

  /** String.prototype.trim. */
  function Trim(s: string): (r: string)
    ensures r == [] || (!IsSpace(r[0]) && !IsSpace(r[|r| - 1]))
    ensures r == [] <==> forall i :: 0 <= i < |s| ==> IsSpace(s[i])
  {
    TrimEnd(TrimStart(s))
  }

  /** A string that neither starts nor ends with white space is its own trim. */
  lemma TrimTrimmed(s: string)
    requires s == [] || (!IsSpace(s[0]) && !IsSpace(s[|s| - 1]))
    ensures Trim(s) == s
  {
  }

  /** The `length` of a JavaScript string: characters outside the Basic
      Multilingual Plane take two UTF-16 code units. */
  function Utf16Length(s: string): nat {
    if s == [] then 0 else (if s[0] as int >= 0x10000 then 2 else 1) + Utf16Length(s[1..])
  }

  lemma {:induction false} Utf16LengthBounds(s: string)
    ensures |s| <= Utf16Length(s) <= 2 * |s|
    ensures Utf16Length(s) == 0 <==> s == []
  {
    if s != [] {
      Utf16LengthBounds(s[1..]);
    }
  }
}

// synchronizeAttrs and reflectAttribute of utilsPrivate/utilsPrivate.js:
// writing a map of attribute values onto an element, either as attributes
// (plain elements) or as camel-cased properties (LIGHTNING* elements), and
// reflecting one value onto one attribute.

module SyncAttrs {
  import opened JsValues
  import opened JsObjects
  import opened Dom

  // ---------------------------------------------------------------------------
  // Names

  /** /^LIGHTNING/i.test(tagName). */
  predicate IsLightningTag(tagName: string) {
    StartsWithIgnoreCase(tagName, "LIGHTNING")
  }

  /** name.replace(/-\w/g, dashWordCharReplacement): every dash followed by a
      word character, scanning left to right without overlap, is replaced by
      that character upper-cased. */
  function CamelCase(s: string): (r: string)
    ensures |r| <= |s|
    ensures NoDash(s) ==> r == s
    decreases |s|
  {
    if s == [] then []
    else if |s| >= 2 && s[0] == '-' && IsWordChar(s[1]) then [UpperAscii(s[1])] + CamelCase(s[2..])
    else [s[0]] + CamelCase(s[1..])
  }

  /** A dash is removed only together with the word character after it, and
      a dash that no word character follows is kept. */
  lemma CamelCaseExamples()
    ensures CamelCase("a-b") == "aB"
    ensures CamelCase("a--b") == "a-B"
    ensures CamelCase("a-") == "a-"
  {
    assert CamelCase("-b") == "B";
    assert CamelCase("--b") == "-B";
    assert CamelCase("-") == "-";
  }

  predicate NoDash(s: string) {
    forall i :: 0 <= i < |s| ==> s[i] != '-'
  }

  /** Text before the first dash is kept as it is. */
  lemma {:induction false} CamelCasePrefix(a: string, t: string)
    requires NoDash(a)
    ensures CamelCase(a + t) == a + CamelCase(t)
  {
    if a != [] {
      var s := a + t;
      assert CamelCase(s) == [a[0]] + CamelCase(a[1..] + t) by {
        assert s[0] == a[0] != '-';
        assert s[1..] == a[1..] + t;
        KeptChar(s);
      }
      CamelCasePrefix(a[1..], t);
      assert a == [a[0]] + a[1..];
    } else {
      assert a + t == t;
    }
  }

  lemma KeptChar(s: string)
    requires s != [] && s[0] != '-'
    ensures CamelCase(s) == [s[0]] + CamelCase(s[1..])
  {
  }

  /** The first dash followed by a word character x is replaced, with x,
      by x upper-cased; scanning resumes after x. */
  lemma {:induction false} CamelCaseDash(a: string, x: char, b: string)
    requires NoDash(a) && IsWordChar(x)
    ensures CamelCase(a + ['-', x] + b) == a + [UpperAscii(x)] + CamelCase(b)
  {
    var t := ['-', x] + b;
    assert CamelCase(t) == [UpperAscii(x)] + CamelCase(b) by {
      assert t[2..] == b;
    }
    assert a + ['-', x] + b == a + t;
    CamelCasePrefix(a, t);
    assert a + ([UpperAscii(x)] + CamelCase(b)) == a + [UpperAscii(x)] + CamelCase(b);
  }

  /** The first dash that no word character follows is kept; scanning
      resumes right after it. */
  lemma {:induction false} CamelCaseKeepsDash(a: string, b: string)
    requires NoDash(a) && !StartsWithWordChar(b)
    ensures CamelCase(a + ['-'] + b) == a + ['-'] + CamelCase(b)
  {
    KeptDashBefore(b);
    CamelCaseAfterPrefix(a, ['-'], b);
  }

  lemma CamelCaseAfterPrefix(a: string, d: string, b: string)
    requires NoDash(a)
    ensures CamelCase(a + d + b) == a + CamelCase(d + b)
  {
    assert a + d + b == a + (d + b);
    CamelCasePrefix(a, d + b);
  }

  predicate StartsWithWordChar(b: string) {
    b != [] && IsWordChar(b[0])
  }

  lemma KeptDashBefore(b: string)
    requires !StartsWithWordChar(b)
    ensures CamelCase(['-'] + b) == ['-'] + CamelCase(b)
  {
    var t := ['-'] + b;
    assert t[1..] == b;
    assert b != [] ==> t[1] == b[0];
    KeptDash(t);
  }

  lemma KeptDash(t: string)
    requires t != [] && t[0] == '-' && (|t| < 2 || !IsWordChar(t[1]))
    ensures CamelCase(t) == ['-'] + CamelCase(t[1..])
  {
  }

  /** The camel-cased names of `keys`, in order. */
  function CamelNames(keys: seq<string>): (r: seq<string>)
    ensures |r| == |keys|
    ensures forall i :: 0 <= i < |keys| ==> r[i] == CamelCase(keys[i])
  {
    if keys == [] then [] else CamelNames(keys[..|keys| - 1]) + [CamelCase(keys[|keys| - 1])]
  }

  // ---------------------------------------------------------------------------
  // synchronizeAttrs

  /** The attributes after synchronizeHTMLElementAttrs has visited `keys`:
      a truthy value is set as String(value), a falsy one removes the
      attribute. */
  function HtmlSynced(a: map<string, string>, keys: seq<string>, props: map<string, JsValue>): map<string, string> {
    if keys == [] then a
    else
      var k := keys[|keys| - 1];
      var b := HtmlSynced(a, keys[..|keys| - 1], props);
      if Truthy(Prop(props, k)) then b[k := ToStr(Prop(props, k))] else b - {k}
  }

  /** The properties after synchronizeLightningElementAttrs has visited
      `keys`: the camel-cased name gets `value || null`. */
  function LightningSynced(p: map<string, JsValue>, keys: seq<string>, props: map<string, JsValue>): map<string, JsValue> {
    if keys == [] then p
    else
      var k := keys[|keys| - 1];
      LightningSynced(p, keys[..|keys| - 1], props)[CamelCase(k) := OrNull(Prop(props, k))]
  }

  /** A named attribute is present exactly when its value is truthy and then
      holds String(value); an attribute not named is untouched. */
  lemma {:induction false} HtmlSyncedMeaning(a: map<string, string>, keys: seq<string>, props: map<string, JsValue>)
    ensures forall n :: n in HtmlSynced(a, keys, props) <==>
      if n in keys then Truthy(Prop(props, n)) else n in a
    ensures forall n :: n in HtmlSynced(a, keys, props) ==>
      HtmlSynced(a, keys, props)[n] == if n in keys then ToStr(Prop(props, n)) else a[n]
  {
    if keys != [] {
      var front := keys[..|keys| - 1];
      HtmlSyncedMeaning(a, front, props);
      assert keys == front + [keys[|keys| - 1]];
    }
  }

  /** Exactly the camel-cased names are added to the properties; every
      other property is untouched. */
  lemma {:induction false} LightningSyncedDomain(p: map<string, JsValue>, keys: seq<string>, props: map<string, JsValue>)
    ensures forall n :: n in LightningSynced(p, keys, props) <==> n in p || n in CamelNames(keys)
    ensures forall n :: n in p && n !in CamelNames(keys) ==> LightningSynced(p, keys, props)[n] == p[n]
  {
    if keys != [] {
      LightningSyncedDomain(p, keys[..|keys| - 1], props);
    }
  }

  /** Key `i` is the last of `keys` to camel-case to its name. */
  predicate LastOfName(keys: seq<string>, i: int) {
    0 <= i < |keys| && forall j :: i < j < |keys| ==> CamelCase(keys[j]) != CamelCase(keys[i])
  }

  /** Each camel-cased name holds `value || null` of the last key that
      camel-cases to it: a later key overwrites an earlier one with the same
      name. */
  lemma {:induction false} LightningSyncedLastWins(p: map<string, JsValue>, keys: seq<string>, props: map<string, JsValue>)
    ensures forall i :: LastOfName(keys, i) ==>
      CamelCase(keys[i]) in LightningSynced(p, keys, props) &&
      LightningSynced(p, keys, props)[CamelCase(keys[i])] == OrNull(Prop(props, keys[i]))
  {
    if keys != [] {
      var front := keys[..|keys| - 1];
      var k := keys[|keys| - 1];
      LightningSyncedLastWins(p, front, props);
      forall i | LastOfName(keys, i) && i < |keys| - 1
        ensures LastOfName(front, i) && CamelCase(keys[i]) != CamelCase(k)
      {
        assert front[i] == keys[i];
        forall j | i < j < |front|
          ensures CamelCase(front[j]) != CamelCase(front[i])
        {
          assert front[j] == keys[j];
        }
      }
    }
  }

  /** When no two keys camel-case to the same name, each key's property holds
      `value || null`. */
  lemma LightningSyncedValues(p: map<string, JsValue>, keys: seq<string>, props: map<string, JsValue>)
    requires Distinct(CamelNames(keys))
    ensures forall i :: 0 <= i < |keys| ==>
      CamelCase(keys[i]) in LightningSynced(p, keys, props) &&
      LightningSynced(p, keys, props)[CamelCase(keys[i])] == OrNull(Prop(props, keys[i]))
  {
    LightningSyncedLastWins(p, keys, props);
    var names := CamelNames(keys);
    forall i | 0 <= i < |keys|
      ensures LastOfName(keys, i)
    {
      forall j | i < j < |keys|
        ensures CamelCase(keys[j]) != CamelCase(keys[i])
      {
        assert names[i] != names[j];
      }
    }
  }

  /** Two keys with one camel-cased name: the later one decides the value. */
  lemma LightningSyncedCollision(p: map<string, JsValue>, props: map<string, JsValue>)
    ensures CamelCase("a-b") == CamelCase("aB") == "aB"
    ensures var r := LightningSynced(p, ["a-b", "aB"], props);
      "aB" in r && r["aB"] == OrNull(Prop(props, "aB"))
  {
    CamelCaseExamples();
    assert CamelCase("aB") == "aB";
    assert LastOfName(["a-b", "aB"], 1);
    LightningSyncedLastWins(p, ["a-b", "aB"], props);
  }

  method SynchronizeHtmlElementAttrs(element: Element, attrs: Object<JsValue>)
    modifies element
    ensures element.attributes == HtmlSynced(old(element.attributes), attrs.keys, attrs.props)
    ensures element.properties == old(element.properties)
  {
    var attrNames := attrs.keys;
    ghost var a0 := element.attributes;
    var i := 0;
    while i < |attrNames|
      invariant 0 <= i <= |attrNames|
      invariant element.attributes == HtmlSynced(a0, attrNames[..i], attrs.props)
      invariant element.properties == old(element.properties)
    {
      var attrName := attrNames[i];
      var attrValue := Prop(attrs.props, attrName);
      assert attrNames[..i + 1][..i] == attrNames[..i];
      if Truthy(attrValue) {
        element.SetAttribute(attrName, attrValue);
      } else {
        element.RemoveAttribute(attrName);
      }
      i := i + 1;
    }
    assert attrNames[..i] == attrNames;
  }

  method SynchronizeLightningElementAttrs(element: Element, attrs: Object<JsValue>)
    modifies element
    ensures element.properties == LightningSynced(old(element.properties), attrs.keys, attrs.props)
    ensures element.attributes == old(element.attributes)
  {
    var attrNames := attrs.keys;
    ghost var p0 := element.properties;
    var i := 0;
    while i < |attrNames|
      invariant 0 <= i <= |attrNames|
      invariant element.properties == LightningSynced(p0, attrNames[..i], attrs.props)
      invariant element.attributes == old(element.attributes)
    {
      var attrName := attrNames[i];
      var attrValue := Prop(attrs.props, attrName);
      assert attrNames[..i + 1][..i] == attrNames[..i];
      var normalizedName := CamelCase(attrName);
      element.SetProperty(normalizedName, OrNull(attrValue));
      i := i + 1;
    }
    assert attrNames[..i] == attrNames;
  }

  /** synchronizeAttrs(element, attrs): nothing without an element; a
      LIGHTNING* element gets properties, any other element attributes. */
  method SynchronizeAttrs(element: Element?, attrs: Object<JsValue>)
    modifies element
    ensures element != null && IsLightningTag(element.tagName) ==>
      element.properties == LightningSynced(old(element.properties), attrs.keys, attrs.props) &&
      element.attributes == old(element.attributes)
    ensures element != null && !IsLightningTag(element.tagName) ==>
      element.attributes == HtmlSynced(old(element.attributes), attrs.keys, attrs.props) &&
      element.properties == old(element.properties)
  {
    if element != null {
      if IsLightningTag(element.tagName) {
        SynchronizeLightningElementAttrs(element, attrs);
      } else {
        SynchronizeHtmlElementAttrs(element, attrs);
      }
    }
  }

  // ---------------------------------------------------------------------------
  // reflectAttribute

  /** A value reflectAttribute refuses: a truthy value that is neither a
      string nor `true`. */
  predicate Warns(value: JsValue) {
    !value.Str? && value != Bool(true) && Truthy(value)
  }

  /** The attributes after reflectAttribute(element, name, value): a string
      is stored as is, `true` as the empty string, a falsy non-string removes
      the attribute, and a refused value leaves it alone. */
  function Reflected(a: map<string, string>, name: string, value: JsValue): (r: map<string, string>)
    ensures forall n :: n != name ==> (n in r <==> n in a) && (n in r ==> r[n] == a[n])
    ensures Warns(value) ==> r == a
  {
    if value.Str? then a[name := value.s]
    else if value == Bool(true) then a[name := ""]
    else if !Truthy(value) then a - {name}
    else a
  }

  /** A string value, even the empty one, is what getAttribute reads back. */
  lemma ReflectStringReadBack(a: map<string, string>, name: string, s: string)
    ensures name in Reflected(a, name, Str(s)) && Reflected(a, name, Str(s))[name] == s
  {
  }

  /** A boolean is reflected as presence: the attribute exists exactly when
      the value is true, and then it is empty. */
  lemma ReflectBoolean(a: map<string, string>, name: string, b: bool)
    ensures name in Reflected(a, name, Bool(b)) <==> b
    ensures b ==> Reflected(a, name, Bool(b))[name] == ""
  {
  }

  /** null, undefined, 0, NaN and false all remove the attribute. */
  lemma ReflectFalsy(a: map<string, string>, name: string, value: JsValue)
    requires !Truthy(value) && !value.Str?
    ensures name !in Reflected(a, name, value)
  {
  }

  /** Reflecting the same value twice is the same as reflecting it once. */
  lemma ReflectIdempotent(a: map<string, string>, name: string, value: JsValue)
    ensures Reflected(Reflected(a, name, value), name, value) == Reflected(a, name, value)
  {
  }

  /** reflectAttribute(element, attrName, value); returns whether the value
      was refused with a warning. */
  method ReflectAttribute(element: Element?, attrName: string, value: JsValue) returns (warned: bool)
    modifies element
    ensures warned <==> element != null && Warns(value)
    ensures element != null ==>
      element.attributes == Reflected(old(element.attributes), attrName, value) &&
      element.properties == old(element.properties)
  {
    warned := false;
    if element == null {
      return;
    }
    if value.Str? {
      element.SetAttribute(attrName, value);
    } else if value == Bool(true) {
      element.SetAttribute(attrName, Str(""));
    } else if !Truthy(value) {
      element.RemoveAttribute(attrName);
    } else {
      warned := true;
    }
  }
}

// utilsPrivate/classSet.js: the stand-alone serialiser of a class map. Its
// loop is the same as the class set's toString, so both are specified by
// ClassSet.Serialize and inherit the properties proved about it.

module PrivateClassSet {
  import opened JsValues
  import opened JsObjects
  import opened ClassSet

  /** classSetToString(classes): the keys of `classes` whose values are
      truthy, in Object.keys order, a space before each one except while the
      string is still empty. `classes` is only read. */
  method ClassSetToString(classes: Object<JsValue>) returns (s: string)
    requires classes.Valid()
    ensures s == Serialize(classes)
  {
    s := "";
    var keys := classes.keys;
    var i := 0;
    while i < |keys|
      invariant 0 <= i <= |keys|
      invariant s == SerializeKeys(keys[..i], classes.props)
    {
      var key := keys[i];
      assert keys[..i + 1][..i] == keys[..i];
      if Truthy(classes.props[key]) {
        Utf16LengthBounds(s);
        s := s + (if Utf16Length(s) != 0 then " " else "") + key;
      }
      i := i + 1;
    }
    assert keys[..i] == keys;
  }
}

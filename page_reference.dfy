// utilsPrivate/pageReference.js: isValidPageReference, an `&&` chain whose
// value is the first falsy operand or, when every operand is truthy, the
// result of the final key check.

module PageReferences {
  import opened JsValues
  import opened JsObjects

  /** VALID_PAGE_REFERENCE_PROPERTIES. */
  const ValidProperties: set<string> := {"type", "attributes", "state"}

  /** Reading property `k` of `value`, whose own properties are `own` when it
      is an object or a function. No primitive has a `type` or `attributes`
      property. */
  function Read(value: JsValue, own: Object<JsValue>, k: string): (v: JsValue)
    ensures !(value.Obj? || value.Fn?) ==> v == Undef
  {
    if value.Obj? || value.Fn? then Prop(own.props, k) else Undef
  }

  /** isValidPageReference(object). */
  function IsValidPageReference(candidate: JsValue, own: Object<JsValue>): (r: JsValue)
  {
    if !Truthy(candidate) then candidate
    else
      var t := Read(candidate, own, "type");
      if !Truthy(t) then t
      else if TypeOf(t) != "string" then Bool(false)
      else
        var a := Read(candidate, own, "attributes");
        if !Truthy(a) then a
        else if TypeOf(a) != "object" then Bool(false)
        else Bool(KeysValid(own))
  }

  /** Object.keys(object).every((prop) => VALID_PAGE_REFERENCE_PROPERTIES.has(prop)). */
  predicate KeysValid(own: Object<JsValue>) {
    forall k :: k in own.keys ==> k in ValidProperties
  }

  /** The conditions a page reference must meet: an object or function whose
      `type` is a non-empty string, whose `attributes` is a non-null object
      (arrays included), and whose own keys are among type, attributes and
      state. */
  predicate WellFormed(candidate: JsValue, own: Object<JsValue>) {
    (candidate.Obj? || candidate.Fn?) &&
    Prop(own.props, "type").Str? && Prop(own.props, "type").s != "" &&
    Prop(own.props, "attributes").Obj? &&
    KeysValid(own)
  }

  /** The result is truthy exactly for well-formed page references, and is
      then `true`; otherwise it is a falsy value: the candidate itself, its
      `type`, its `attributes` or `false`, whichever failed first. */
  lemma PageReferenceMeaning(candidate: JsValue, own: Object<JsValue>)
    ensures Truthy(IsValidPageReference(candidate, own)) <==> WellFormed(candidate, own)
    ensures WellFormed(candidate, own) ==> IsValidPageReference(candidate, own) == Bool(true)
    ensures !WellFormed(candidate, own) ==>
      IsValidPageReference(candidate, own) in
        {candidate, Read(candidate, own, "type"), Read(candidate, own, "attributes"), Bool(false)}
  {
    var t := Read(candidate, own, "type");
    var a := Read(candidate, own, "attributes");
    TypeOfTests(t);
    TypeOfTests(a);
  }

  /** A falsy argument is the result. */
  lemma FalsyIsResult(candidate: JsValue, own: Object<JsValue>)
    requires !Truthy(candidate)
    ensures IsValidPageReference(candidate, own) == candidate
  {
  }

  /** The value of `state` is not looked at. */
  lemma StateUnchecked(candidate: JsValue, own: Object<JsValue>, state: JsValue)
    requires "state" in own.keys
    ensures IsValidPageReference(candidate, own.(props := own.props["state" := state])) == IsValidPageReference(candidate, own)
  {
    assert Prop(own.props["state" := state], "type") == Prop(own.props, "type");
    assert Prop(own.props["state" := state], "attributes") == Prop(own.props, "attributes");
  }

  /** The own properties of { type, attributes } with an optional state. */
  function PageReference(kind: string, attributes: JsValue, state: Option<JsValue>): (own: Object<JsValue>)
  {
    var base := Object(["type", "attributes"], map["type" := Str(kind), "attributes" := attributes]);
    if state.Some? then Object(base.keys + ["state"], base.props["state" := state.value]) else base
  }

  /** A page reference built from a non-empty type and an object of
      attributes is valid, with or without a state; one more key of any
      other name makes it invalid. */
  lemma BuiltPageReference(ref: nat, text: string, kind: string, attributes: JsValue, state: Option<JsValue>, extra: string, v: JsValue)
    requires kind != "" && attributes.Obj?
    requires extra !in ValidProperties
    ensures IsValidPageReference(Obj(ref, text), PageReference(kind, attributes, state)) == Bool(true)
    ensures var own := PageReference(kind, attributes, state);
      IsValidPageReference(Obj(ref, text), Object(own.keys + [extra], own.props[extra := v])) == Bool(false)
  {
    var own := PageReference(kind, attributes, state);
    TypeOfTests(Str(kind));
    TypeOfTests(attributes);
    assert "type" != "attributes";
    assert Prop(own.props, "type") == Str(kind);
    assert Prop(own.props, "attributes") == attributes;
    forall k | k in own.keys ensures k in ValidProperties {
    }
    var own' := Object(own.keys + [extra], own.props[extra := v]);
    assert extra in own'.keys;
    assert Prop(own'.props, "type") == Str(kind);
    assert Prop(own'.props, "attributes") == attributes;
  }
}

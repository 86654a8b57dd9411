// valueSetter and prototypeMatches of utilsPrivate/utilsPrivate.js. The
// custom-element checks (the registry lookup or the tag-name pattern),
// `instanceof` and the setter-descriptor comparison are host facilities and
// enter as parameters.

module ValueSetters {
  import opened JsValues
  import opened Dom

  /** A constructor, by name, with the identity of its `prototype` object. */
  datatype Ctor = Ctor(name: string, prototype: nat)

  /** prototypeMatches(obj, ctor): Object.getPrototypeOf(obj) === ctor.prototype,
      for an object whose prototype has identity `proto`. */
  predicate PrototypeMatches(proto: nat, ctor: Ctor) {
    proto == ctor.prototype
  }

  /** The loop's test for one constructor: the element is an instance, its
      prototype is exactly the constructor's, and its `value` setter is the
      prototype's own. */
  predicate Eligible(c: Ctor, proto: nat, instanceOf: Ctor -> bool, setterOverwritten: bool) {
    instanceOf(c) && PrototypeMatches(proto, c) && !setterOverwritten
  }

  /** The index the loop breaks at: the first eligible constructor. */
  function FirstEligible(ctors: seq<Ctor>, proto: nat, instanceOf: Ctor -> bool, setterOverwritten: bool): (r: Option<nat>)
    ensures r.Some? ==> r.value < |ctors| && Eligible(ctors[r.value], proto, instanceOf, setterOverwritten)
    ensures r.Some? ==> forall j :: 0 <= j < r.value ==> !Eligible(ctors[j], proto, instanceOf, setterOverwritten)
    ensures r.None? ==> forall j :: 0 <= j < |ctors| ==> !Eligible(ctors[j], proto, instanceOf, setterOverwritten)
  {
    if ctors == [] then None
    else if Eligible(ctors[0], proto, instanceOf, setterOverwritten) then Some(0)
    else
      match FirstEligible(ctors[1..], proto, instanceOf, setterOverwritten)
      case None => None
      case Some(i) => Some(i + 1)
  }

  /** Which way valueSetter went. */
  datatype Outcome =
    | Invalid         // no element, or no tag/node name: returned early
    | Custom          // a custom element: value assigned directly
    | Matched(i: nat) // value assigned for constructor number i
    | NoMatch         // no constructor qualified: nothing assigned

  predicate Assigns(o: Outcome) {
    o.Custom? || o.Matched?
  }

  /** The early-return test: an element, and with the registry check a
      non-empty node name (the tag name, for an element). */
  predicate ValidElement(tagName: Option<string>, regexCheck: bool) {
    tagName.Some? && (regexCheck || tagName.value != "")
  }

  /** With the pattern flag the pattern test applies to the tag name;
      otherwise the registry is asked. */
  predicate IsCustom(tagName: string, regexCheck: bool, isCustomName: string -> bool, isRegistered: string -> bool) {
    if regexCheck then isCustomName(tagName) else isRegistered(tagName)
  }

  /** The outcome for an element with tag name `tagName` (None: no element). */
  function Decide(tagName: Option<string>, proto: nat, ctors: seq<Ctor>, regexCheck: bool,
                  isCustomName: string -> bool, isRegistered: string -> bool,
                  instanceOf: Ctor -> bool, setterOverwritten: bool): Outcome
  {
    if !ValidElement(tagName, regexCheck) then Invalid
    else if IsCustom(tagName.value, regexCheck, isCustomName, isRegistered) then Custom
    else
      match FirstEligible(ctors, proto, instanceOf, setterOverwritten)
      case Some(i) => Matched(i)
      case None => NoMatch
  }

  /** `value` is assigned exactly when the element is valid and either is a
      custom element or some constructor qualifies; the constructor used is
      the first that qualifies. */
  lemma DecideMeaning(tagName: Option<string>, proto: nat, ctors: seq<Ctor>, regexCheck: bool,
                      isCustomName: string -> bool, isRegistered: string -> bool,
                      instanceOf: Ctor -> bool, setterOverwritten: bool)
    ensures Assigns(Decide(tagName, proto, ctors, regexCheck, isCustomName, isRegistered, instanceOf, setterOverwritten))
      <==> ValidElement(tagName, regexCheck) &&
           (IsCustom(tagName.value, regexCheck, isCustomName, isRegistered) ||
            exists j :: 0 <= j < |ctors| && Eligible(ctors[j], proto, instanceOf, setterOverwritten))
    ensures Decide(tagName, proto, ctors, regexCheck, isCustomName, isRegistered, instanceOf, setterOverwritten) == Custom
      <==> ValidElement(tagName, regexCheck) && IsCustom(tagName.value, regexCheck, isCustomName, isRegistered)
    ensures var o := Decide(tagName, proto, ctors, regexCheck, isCustomName, isRegistered, instanceOf, setterOverwritten);
      o.Matched? ==> o.i < |ctors| && Eligible(ctors[o.i], proto, instanceOf, setterOverwritten) &&
                     forall j :: 0 <= j < o.i ==> !Eligible(ctors[j], proto, instanceOf, setterOverwritten)
  {
  }

  /** An overwritten `value` setter rules out every constructor. */
  lemma OverwrittenSetterNeverMatches(ctors: seq<Ctor>, proto: nat, instanceOf: Ctor -> bool)
    ensures FirstEligible(ctors, proto, instanceOf, true) == None
  {
  }

  function TagOf(element: Element?): Option<string>
    reads element
  {
    if element == null then None else Some(element.tagName)
  }

  /** valueSetter(element, validNodeCtorArr, value, flag): assigns
      element.value at most once and reports which branch was taken. */
  method ValueSetter(element: Element?, ctors: seq<Ctor>, value: JsValue, regexCheck: bool,
                     isCustomName: string -> bool, isRegistered: string -> bool,
                     instanceOf: Ctor -> bool, setterOverwritten: bool) returns (outcome: Outcome)
    modifies element
    ensures outcome == Decide(TagOf(element), if element == null then 0 else element.proto, ctors, regexCheck,
                              isCustomName, isRegistered, instanceOf, setterOverwritten)
    ensures element != null ==> element.attributes == old(element.attributes)
    ensures element != null ==>
      element.properties == if Assigns(outcome) then old(element.properties)["value" := value] else old(element.properties)
  {
    if element == null || (!regexCheck && element.tagName == "") {
      return Invalid;
    }
    if IsCustom(element.tagName, regexCheck, isCustomName, isRegistered) {
      element.SetProperty("value", value);
      return Custom;
    }
    outcome := NoMatch;
    var i := 0;
    while i < |ctors|
      invariant 0 <= i <= |ctors|
      invariant forall j :: 0 <= j < i ==> !Eligible(ctors[j], element.proto, instanceOf, setterOverwritten)
      invariant element.properties == old(element.properties)
    {
      var validCtor := ctors[i];
      if instanceOf(validCtor) && PrototypeMatches(element.proto, validCtor) && !setterOverwritten {
        element.SetProperty("value", value);
        FirstEligibleIs(ctors, element.proto, instanceOf, setterOverwritten, i);
        return Matched(i);
      }
      i := i + 1;
    }
    FirstEligibleNone(ctors, element.proto, instanceOf, setterOverwritten);
  }

  lemma {:induction false} FirstEligibleIs(ctors: seq<Ctor>, proto: nat, instanceOf: Ctor -> bool, setterOverwritten: bool, i: nat)
    requires i < |ctors| && Eligible(ctors[i], proto, instanceOf, setterOverwritten)
    requires forall j :: 0 <= j < i ==> !Eligible(ctors[j], proto, instanceOf, setterOverwritten)
    ensures FirstEligible(ctors, proto, instanceOf, setterOverwritten) == Some(i)
  {
    if i > 0 {
      FirstEligibleIs(ctors[1..], proto, instanceOf, setterOverwritten, i - 1);
    }
  }

  lemma FirstEligibleNone(ctors: seq<Ctor>, proto: nat, instanceOf: Ctor -> bool, setterOverwritten: bool)
    requires forall j :: 0 <= j < |ctors| ==> !Eligible(ctors[j], proto, instanceOf, setterOverwritten)
    ensures FirstEligible(ctors, proto, instanceOf, setterOverwritten) == None
  {
  }
}

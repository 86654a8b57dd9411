// The small helpers of utilsPrivate/utilsPrivate.js: getRealDOMId,
// buttonGroupOrderClass, isUndefinedOrNull, hasOwnProperties and the
// privateContext store.

module UtilsPrivate {
  import opened JsValues
  import opened JsObjects

  // ---------------------------------------------------------------------------
  // getRealDOMId

  /** getRealDOMId(el): a string is its own id unless it is empty; an
      object's id is its `id` attribute, read through `idOf` (getAttribute
      on the element with that identity); anything else has none. None
      stands for null. */
  function GetRealDomId(el: JsValue, idOf: nat -> Option<string>): (r: Option<string>)
    ensures el.Str? ==> (r.Some? <==> el.s != "") && (r.Some? ==> r.value == el.s)
    ensures el.Obj? ==> r == idOf(el.ref)
    ensures !el.Str? && !el.Obj? ==> r == None
  {
    match el
    case Str(s) => if Utf16Length(s) > 0 then Some(s) else None
    case Obj(ref, _) => idOf(ref)
    case _ => None
  }

  /** An id getRealDOMId returns can itself be passed back in and comes out
      unchanged, provided it is not empty; an element's empty id attribute
      comes back as null the second time. */
  lemma GetRealDomIdStable(el: JsValue, idOf: nat -> Option<string>)
    requires GetRealDomId(el, idOf).Some? && GetRealDomId(el, idOf).value != ""
    ensures GetRealDomId(Str(GetRealDomId(el, idOf).value), idOf) == GetRealDomId(el, idOf)
  {
  }

  lemma GetRealDomIdEmptyAttribute(ref: nat, text: string, idOf: nat -> Option<string>)
    requires idOf(ref) == Some("")
    ensures GetRealDomId(Obj(ref, text), idOf) == Some("")
    ensures GetRealDomId(Str(""), idOf) == None
  {
  }

  // ---------------------------------------------------------------------------
  // buttonGroupOrderClass

  const GroupOrders: seq<string> := ["first", "middle", "last", "only"]

  /** buttonGroupOrderClass(groupOrder): the class for one of the four group
      orders, undefined (None) for any other value. */
  function ButtonGroupOrderClass(groupOrder: string): (r: Option<string>)
    ensures r.Some? <==> groupOrder in GroupOrders
  {
    match groupOrder
    case "first" => Some("slds-button_first")
    case "middle" => Some("slds-button_middle")
    case "last" => Some("slds-button_last")
    case "only" => Some("single-button")
    case _ => None
  }

  /** Different group orders never share a class. */
  lemma ButtonGroupOrderClassInjective(a: string, b: string)
    requires ButtonGroupOrderClass(a).Some? && ButtonGroupOrderClass(a) == ButtonGroupOrderClass(b)
    ensures a == b
  {
  }

  // ---------------------------------------------------------------------------
  // isUndefinedOrNull

  function IsUndefinedOrNull(value: JsValue): (r: bool)
    ensures r ==> !Truthy(value)
    ensures r <==> TypeOf(value) == "undefined" || value == Null
  {
    value == Null || value == Undef
  }

  // ---------------------------------------------------------------------------
  // hasOwnProperties

  /** The names a for-in loop visits: the object's own enumerable keys, then
      the enumerable keys it inherits and does not shadow. */
  function ForInKeys(obj: Object<JsValue>, inherited: seq<string>): seq<string> {
    obj.keys + inherited
  }

  /** hasOwnProperties(object): the loop returns true at the first visited
      name that is an own property. `inherited` lists the enumerable names of
      the prototype chain that the object does not shadow. */
  method HasOwnProperties(obj: Object<JsValue>, inherited: seq<string>) returns (r: bool)
    requires obj.Valid()
    requires forall i :: 0 <= i < |inherited| ==> inherited[i] !in obj.props
    ensures r <==> obj.keys != []
  {
    var keys := ForInKeys(obj, inherited);
    assert forall j :: 0 <= j < |obj.keys| ==> keys[j] == obj.keys[j] && keys[j] in obj.props;
    var i := 0;
    while i < |keys|
      invariant 0 <= i <= |keys|
      invariant 0 < i ==> obj.keys == []
    {
      if keys[i] in obj.props {
        return true;
      }
      i := i + 1;
    }
    return false;
  }

  // ---------------------------------------------------------------------------
  // privateContext

  /** The privateContext object: a weak map from component identities to
      their context objects, and the `features` flag assertContext consults
      (never set by the module itself). */
  class PrivateContext {
    var contexts: map<nat, JsValue>
    var enableAssertContext: bool

    constructor ()
      ensures contexts == map[] && !enableAssertContext
    {
      contexts := map[];
      enableAssertContext := false;
    }

    /** setContext(that, ctx = {}): an omitted context is a fresh empty
        object, whose identity is `freshRef`. */
    method SetContext(that: nat, ctx: JsValue, freshRef: nat)
      modifies this
      ensures contexts == old(contexts)[that := StoredContext(ctx, freshRef)]
      ensures GetContext(that) == StoredContext(ctx, freshRef)
      ensures forall o :: o != that ==> GetContext(o) == old(GetContext(o))
      ensures enableAssertContext == old(enableAssertContext)
    {
      contexts := contexts[that := StoredContext(ctx, freshRef)];
    }

    /** getContext(that): undefined for a component never registered. */
    function GetContext(that: nat): (r: JsValue)
      reads this
      ensures that !in contexts ==> r == Undef
    {
      if that in contexts then contexts[that] else Undef
    }

    /** assertContext(that): throws only when the component's context is
        falsy and the features flag is on. */
    method AssertContext(that: nat) returns (thrown: bool)
      ensures thrown <==> !Truthy(GetContext(that)) && enableAssertContext
    {
      var ctx := GetContext(that);
      thrown := !Truthy(ctx) && enableAssertContext;
    }
  }

  /** The value setContext stores: the context given, or a fresh empty
      object in place of an omitted one. A context set without an argument
      is therefore truthy, and assertContext accepts it. */
  function StoredContext(ctx: JsValue, freshRef: nat): (r: JsValue)
    ensures ctx != Undef ==> r == ctx
    ensures ctx == Undef ==> r.Obj? && r.ref == freshRef
    ensures Truthy(r) <==> ctx == Undef || Truthy(ctx)
  {
    if ctx == Undef then Obj(freshRef, "[object Object]") else ctx
  }
}

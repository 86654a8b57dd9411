// A DOM element as the utilities touch it: its tag name, its attributes and
// the JavaScript properties assigned on it.

module Dom {
  import opened JsValues

  class Element {
    /** The element's tagName; it never changes. */
    const tagName: string
    /** The prototype object the element was created from, by identity. */
    const proto: nat
    var attributes: map<string, string>
    var properties: map<string, JsValue>

    constructor (tagName: string, proto: nat)
      ensures this.tagName == tagName && this.proto == proto
      ensures attributes == map[] && properties == map[]
    {
      this.tagName := tagName;
      this.proto := proto;
      attributes := map[];
      properties := map[];
    }

    /** getAttribute(name): the attribute's text, or null when it is absent. */
    function GetAttribute(name: string): (r: Option<string>)
      reads this
      ensures r.Some? <==> name in attributes
      ensures r.Some? ==> r.value == attributes[name]
    {
      if name in attributes then Some(attributes[name]) else None
    }

    /** setAttribute(name, value): stores String(value). */
    method SetAttribute(name: string, value: JsValue)
      modifies this
      ensures attributes == old(attributes)[name := ToStr(value)]
      ensures properties == old(properties)
    {
      attributes := attributes[name := ToStr(value)];
    }

    /** removeAttribute(name); removing an absent attribute does nothing. */
    method RemoveAttribute(name: string)
      modifies this
      ensures attributes == old(attributes) - {name}
      ensures properties == old(properties)
    {
      attributes := attributes - {name};
    }

    /** element[name] = value, for a property without a custom setter. */
    method SetProperty(name: string, value: JsValue)
      modifies this
      ensures properties == old(properties)[name := value]
      ensures attributes == old(attributes)
    {
      properties := properties[name := value];
    }
  }
}

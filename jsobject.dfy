/**
 * Property lookup on a plain JavaScript object literal, as the page script
 * does with `pageMap[page]` and `trackingDatabase[id]`: a key the literal
 * defines yields its own value, and a key it does not define may still
 * yield a property inherited from Object.prototype.
 */
module JsObject {

  /** The property names every object literal inherits from Object.prototype
      (section 20.1.3 of ECMA-262, 2023 edition, with the legacy members of
      its annex B.2.2). Each inherited value is a function or an object, so
      it is truthy. */
  const ObjectPrototypeProperties: set<string> := {
    "constructor", "hasOwnProperty", "isPrototypeOf", "propertyIsEnumerable",
    "toLocaleString", "toString", "valueOf", "__proto__",
    "__defineGetter__", "__defineSetter__", "__lookupGetter__", "__lookupSetter__"
  }

  /** What `obj[key]` evaluates to. */
  datatype Property<V> = Own(value: V) | Inherited(name: string) | Absent

  /** `obj[key]` for an object literal whose own properties are `own`. */
  function Get<V>(own: map<string, V>, key: string): (r: Property<V>)
    ensures r.Own? <==> key in own
    ensures r.Own? ==> r.value == own[key]
    ensures r.Absent? <==> key !in own && key !in ObjectPrototypeProperties
  {
    if key in own then Own(own[key])
    else if key in ObjectPrototypeProperties then Inherited(key)
    else Absent
  }
}

/** Reading a key from an object literal used as a lookup table (`table[key]`), followed by `??`
    or `||` and, where the result lands in a template literal or a property key, conversion to a
    string. An object literal inherits from `Object.prototype`, so a key naming one of its members
    reads that member instead of `undefined`. */
module JsRecord {

  /** The result of `table[key]`. */
  datatype Read<V> = Own(value: V) | Inherited(name: string) | Undefined

  /** A value after `??`/`||`: a value of the table's own kind, or an inherited member. */
  datatype Value<V> = Plain(value: V) | ProtoMember(name: string)

  /** The members of `Object.prototype`, as ECMA-262 (section 20.1.3) and Annex B define them. */
  const ObjectPrototypeNames: set<string> := {
    "constructor", "hasOwnProperty", "isPrototypeOf", "propertyIsEnumerable", "toLocaleString",
    "toString", "valueOf", "__proto__", "__defineGetter__", "__defineSetter__",
    "__lookupGetter__", "__lookupSetter__"
  }

  function Get<V>(table: map<string, V>, key: string): (r: Read<V>)
    ensures key in table ==> r == Own(table[key])
    ensures key !in table && key !in ObjectPrototypeNames ==> r == Undefined
  {
    if key in table then Own(table[key])
    else if key in ObjectPrototypeNames then Inherited(key)
    else Undefined
  }

  /** `table[key] ?? fallback`. */
  function Coalesce<V>(r: Read<V>, fallback: V): (v: Value<V>)
  {
    match r
    case Own(x) => Plain(x)
    case Inherited(n) => ProtoMember(n)
    case Undefined => Plain(fallback)
  }

  /** `table[key] || fallback` for a table of strings: the empty string is falsy too. Inherited
      members are functions or objects and so truthy. */
  function OrElse(r: Read<string>, fallback: string): (v: Value<string>)
    ensures r.Own? && r.value != [] ==> v == Plain(r.value)
    ensures r.Inherited? ==> v == ProtoMember(r.name)
  {
    match r
    case Own(x) => if x == [] then Plain(fallback) else Plain(x)
    case Inherited(n) => ProtoMember(n)
    case Undefined => Plain(fallback)
  }

  /** The string a value turns into in a template literal or as a property key. `__proto__` reads
      `Object.prototype` itself; every other member is a built-in function, which prints as its
      native-code source text (the form V8 uses: `function name() { [native code] }`, with the
      constructor's name `Object`). */
  function ToStr(v: Value<string>): (s: string)
    ensures v.ProtoMember? ==> |s| >= 15
  {
    match v
    case Plain(x) => x
    case ProtoMember(n) =>
      if n == "__proto__" then "[object Object]"
      else if n == "constructor" then "function Object() { [native code] }"
      else "function " + n + "() { [native code] }"
  }
}

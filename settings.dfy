/**
 * Setting definitions and the validator.
 *
 * A registry maps each setting key of one resource group to its definition:
 * a default value and, optionally, the list of values the key accepts.
 * The registry is fixed when the engine is built and never changes.
 */
module Settings {

  import opened Wrappers

  /** The scalar values a setting can hold, tagged by type so that equality
      is by value AND type (`I(0)` is not `B(false)`, `S("8")` is not `I(8)`). */
  datatype Value = B(b: bool) | I(i: int) | S(s: string)

  /** A setting definition: its default and its allowed values in declaration
      order; `None` means unrestricted (any value of the default's type). */
  datatype Def = Def(default: Value, allowed: Option<seq<Value>>)

  type Registry = map<string, Def>

  /** Same type family (boolean, integer, string). */
  predicate SameKind(a: Value, b: Value)
  {
    (a.B? && b.B?) || (a.I? && b.I?) || (a.S? && b.S?)
  }

  /** Whether a definition accepts a candidate value. */
  predicate Accepts(d: Def, v: Value)
  {
    match d.allowed
    case Some(xs) => v in xs
    case None => SameKind(v, d.default)
  }

  /** `isRegistered(key)`: the key has a definition. */
  function IsRegistered(reg: Registry, key: string): (ok: bool)
    ensures ok <==> DefaultOf(reg, key).Some?
  {
    key in reg
  }

  /** `isValid(key, value)`: false for an unknown key; otherwise true exactly
      when the value occurs in the allowed list, compared by value and type. */
  function IsValid(reg: Registry, key: string, v: Value): (ok: bool)
    ensures !IsRegistered(reg, key) ==> !ok
    ensures key in reg && reg[key].allowed.Some? ==>
      (ok <==> exists i :: 0 <= i < |reg[key].allowed.value| && reg[key].allowed.value[i] == v)
    ensures key in reg && reg[key].allowed.None? ==> (ok <==> SameKind(v, reg[key].default))
  {
    key in reg && Accepts(reg[key], v)
  }

  /** `getDefault(key)`: the declared default, `None` for an unknown key. */
  function DefaultOf(reg: Registry, key: string): (r: Option<Value>)
    ensures r.None? <==> key !in reg
    ensures r.Some? ==> r == Some(reg[key].default)
  {
    if key in reg then Some(reg[key].default) else None
  }

  /** `getAllowed(key)`: the allowed list in declaration order; `None` for an
      unknown key and for an unrestricted one. */
  function AllowedOf(reg: Registry, key: string): (r: Option<seq<Value>>)
    ensures key !in reg ==> r == None
    ensures key in reg ==> r == reg[key].allowed
    ensures r.Some? ==> key in reg
    ensures r.Some? ==> forall v :: IsValid(reg, key, v) <==> v in r.value
  {
    if key in reg then reg[key].allowed else None
  }
}

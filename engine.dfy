/**
 * The settings object of one resource (for example one user): a read-only
 * registry of definitions and the resource's override table, which only
 * `Set` changes.
 */
module Engine {

  import opened Wrappers
  import opened Settings
  import opened Overrides

  class SettingsEngine {
    const registry: Registry
    var overrides: Table

    ghost predicate Valid()
      reads this
    {
      Sparse(registry, overrides)
    }

    /** Binds the engine to a resource whose stored rows are `stored`
        (empty for a resource that never set anything). */
    constructor (registry: Registry, stored: Table)
      requires Sparse(registry, stored)
      ensures Valid()
      ensures this.registry == registry && overrides == stored
    {
      this.registry := registry;
      overrides := stored;
    }

    function IsRegistered(key: string): (ok: bool)
      ensures ok <==> GetDefault(key).Some?
    {
      Settings.IsRegistered(registry, key)
    }

    function IsValid(key: string, v: Value): (ok: bool)
      ensures !IsRegistered(key) ==> !ok
      ensures GetAllowed(key).Some? ==> (ok <==> v in GetAllowed(key).value)
      ensures IsRegistered(key) && GetAllowed(key).None? ==> (ok <==> SameKind(v, GetDefault(key).value))
    {
      Settings.IsValid(registry, key, v)
    }

    function GetDefault(key: string): (r: Option<Value>)
      ensures r.None? <==> key !in registry
      ensures r.Some? ==> r.value == registry[key].default
    {
      DefaultOf(registry, key)
    }

    function GetAllowed(key: string): (r: Option<seq<Value>>)
      ensures r.Some? ==> key in registry && registry[key].allowed == r
      ensures r.None? ==> key !in registry || registry[key].allowed.None?
    {
      AllowedOf(registry, key)
    }

    /** `get(key)`: the override if one is stored, else the default; `None`
        for an unknown key. A row exists exactly when `get` and `getDefault`
        disagree. */
    function Get(key: string): (r: Option<Value>)
      reads this
      requires Valid()
      ensures r.None? <==> !IsRegistered(key)
      ensures key in registry ==> (key in overrides <==> r != GetDefault(key))
      ensures key in overrides ==> r == Some(overrides[key])
    {
      Effective(registry, overrides, key)
    }

    /** `all()`: the stored overrides only, not merged with the defaults;
        every entry is a registered key with a valid non-default value. */
    function All(): (m: Table)
      reads this
      requires Valid()
      ensures m == overrides
      ensures forall k :: k in m ==> IsValid(k, m[k]) && Some(m[k]) != GetDefault(k)
    {
      overrides
    }

    /** `set(pairs)`: each pair in order is skipped when the key is unknown or
        the value invalid, deletes the row when the value is the default, and
        creates or replaces the row otherwise. The pairs come from a PHP array,
        so no key occurs twice. */
    method Set(pairs: seq<(string, Value)>)
      requires Valid()
      requires DistinctKeys(pairs)
      modifies this
      ensures Valid()
      ensures overrides == ApplyBatch(registry, old(overrides), pairs)
    {
      for i := 0 to |pairs|
        invariant Valid()
        invariant overrides == ApplyBatch(registry, old(overrides), pairs[..i])
      {
        assert pairs[..i + 1][..i] == pairs[..i];
        var (key, v) := pairs[i];
        if Settings.IsValid(registry, key, v) {
          if v == registry[key].default {
            overrides := overrides - {key};
          } else {
            overrides := overrides[key := v];
          }
        }
      }
      assert pairs[..|pairs|] == pairs;
    }
  }
}

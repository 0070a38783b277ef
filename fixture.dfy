/**
 * The registry the unit tests run against, and one method per test that
 * drives a fresh engine and states what the test asserts.
 *
 * The tests reveal `test_settings1` in full (default "monkey", allowed
 * "bananas", "grapes", 8, "monkey"). Of `test_settings2` they reveal that
 * `false` is accepted and is not the default, and that "ok" is rejected; of
 * `test_settings3`, that `true` is accepted and is not the default. The rest
 * is chosen here: both keys accept exactly the two booleans, and their
 * defaults are `true` and `false`.
 */
module Fixture {

  import opened Wrappers
  import opened Settings
  import opened Overrides
  import opened Engine

  const Registered: Registry := map[
    "test_settings1" := Def(S("monkey"), Some([S("bananas"), S("grapes"), I(8), S("monkey")])),
    "test_settings2" := Def(B(true), Some([B(true), B(false)])),
    "test_settings3" := Def(B(false), Some([B(true), B(false)]))
  ]

  /** What the tests reveal about the registry holds of `Registered`. */
  lemma RegisteredMatchesTestFacts()
    ensures DefaultOf(Registered, "test_settings1") == Some(S("monkey"))
    ensures AllowedOf(Registered, "test_settings1") == Some([S("bananas"), S("grapes"), I(8), S("monkey")])
    ensures IsValid(Registered, "test_settings2", B(false)) && DefaultOf(Registered, "test_settings2") != Some(B(false))
    ensures !IsValid(Registered, "test_settings2", S("ok"))
    ensures IsValid(Registered, "test_settings3", B(true)) && DefaultOf(Registered, "test_settings3") != Some(B(true))
    ensures !IsRegistered(Registered, "fake") && !IsRegistered(Registered, "invalid_setting")
  {
  }

  method ValidPairPassesValidation() returns (ok: bool)
    ensures ok
  {
    var settings := new SettingsEngine(Registered, map[]);
    ok := settings.IsValid("test_settings1", S("bananas"));
  }

  method UnknownKeyFailsValidation() returns (ok: bool)
    ensures !ok
  {
    var settings := new SettingsEngine(Registered, map[]);
    ok := settings.IsValid("fake", B(true));
  }

  method InvalidValueFailsValidation() returns (ok: bool)
    ensures !ok
  {
    var settings := new SettingsEngine(Registered, map[]);
    ok := settings.IsValid("test_settings2", S("ok"));
  }

  method NewSettingCreatesRow() returns (before: Table, after: Table)
    ensures before == map[]
    ensures after == map["test_settings3" := B(true)]
  {
    var settings := new SettingsEngine(Registered, map[]);
    before := settings.All();
    settings.Set([("test_settings3", B(true))]);
    SetThenGet(Registered, map[], "test_settings3", B(true));
    after := settings.All();
  }

  method UpdateReplacesRow() returns (after: Table)
    ensures after == map["test_settings2" := B(false)]
  {
    var settings := new SettingsEngine(Registered, map[]);
    settings.Set([("test_settings2", B(true))]);
    SetThenGet(Registered, map[], "test_settings2", B(true));
    var mid := settings.All();
    settings.Set([("test_settings2", B(false))]);
    SetThenGet(Registered, mid, "test_settings2", B(false));
    after := settings.All();
  }

  /** The replacement of an existing row, on a key whose first write is not
      its default (on `test_settings2` above the first write is elided). */
  method ReplaceExistingRow() returns (mid: Table, after: Table)
    ensures mid == map["test_settings1" := S("grapes")]
    ensures after == map["test_settings1" := S("bananas")]
  {
    var settings := new SettingsEngine(Registered, map[]);
    settings.Set([("test_settings1", S("grapes"))]);
    SetThenGet(Registered, map[], "test_settings1", S("grapes"));
    mid := settings.All();
    settings.Set([("test_settings1", S("bananas"))]);
    SetThenGet(Registered, mid, "test_settings1", S("bananas"));
    after := settings.All();
  }

  method SetManyAtOnce() returns (before: Table, after: Table)
    ensures before == map[]
    ensures after == map["test_settings1" := S("grapes"), "test_settings2" := B(false)]
  {
    var settings := new SettingsEngine(Registered, map[]);
    before := settings.All();
    var batch := [("test_settings1", S("grapes")), ("test_settings2", B(false))];
    settings.Set(batch);
    assert Customises(Registered, batch[0].0, batch[0].1);
    assert Customises(Registered, batch[1].0, batch[1].1);
    BatchOfCustomValues(Registered, map[], batch);
    assert batch[..1][..0] == [];
    assert batch[..1] == [batch[0]];
    after := settings.All();
  }

  /** `true` is the default of `test_settings2` here, so the write is elided
      and `get` reads the default back rather than a stored row. */
  method GetAfterSet() returns (r: Option<Value>)
    ensures r == Some(B(true))
  {
    var settings := new SettingsEngine(Registered, map[]);
    settings.Set([("test_settings2", B(true))]);
    SetThenGet(Registered, map[], "test_settings2", B(true));
    r := settings.Get("test_settings2");
  }

  method UnsetReturnsDefault() returns (r: Option<Value>)
    ensures r == Some(S("monkey"))
  {
    var settings := new SettingsEngine(Registered, map[]);
    r := settings.Get("test_settings1");
  }

  method UnknownSettingIsNull() returns (r: Option<Value>)
    ensures r == None
  {
    var settings := new SettingsEngine(Registered, map[]);
    r := settings.Get("invalid_setting");
  }

  /** The test asks a group's settings object; here the engine is bound to
      the same registry as the others. */
  method KeyIsRegistered() returns (ok: bool)
    ensures ok
  {
    var settings := new SettingsEngine(Registered, map[]);
    ok := settings.IsRegistered("test_settings1");
  }

  method RepeatedReadsAgree() returns (first: Option<Value>, second: Option<Value>)
    ensures first == second == Some(S("monkey"))
  {
    var settings := new SettingsEngine(Registered, map[]);
    first := settings.Get("test_settings1");
    second := settings.Get("test_settings1");
  }

  method DefaultDeletesRow() returns (mid: Table, after: Table)
    ensures mid == map["test_settings1" := S("grapes")]
    ensures "test_settings1" !in after
  {
    var settings := new SettingsEngine(Registered, map[]);
    settings.Set([("test_settings1", S("grapes"))]);
    SetThenGet(Registered, map[], "test_settings1", S("grapes"));
    mid := settings.All();
    settings.Set([("test_settings1", S("monkey"))]);
    SetThenGet(Registered, mid, "test_settings1", S("monkey"));
    after := settings.All();
  }

  /** The test reads the default of a key never set (`before`); `after` adds
      the same read once an override is stored. */
  method DefaultIgnoresOverrides() returns (before: Option<Value>, after: Option<Value>)
    ensures before == after == Some(S("monkey"))
  {
    var settings := new SettingsEngine(Registered, map[]);
    before := settings.GetDefault("test_settings1");
    settings.Set([("test_settings1", S("grapes"))]);
    after := settings.GetDefault("test_settings1");
  }

  method AllowedInDeclarationOrder() returns (a: Option<seq<Value>>)
    ensures a == Some([S("bananas"), S("grapes"), I(8), S("monkey")])
  {
    var settings := new SettingsEngine(Registered, map[]);
    a := settings.GetAllowed("test_settings1");
  }
}

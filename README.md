# Per-resource typed settings (laravel-property-bag) in Dafny

This project models the settings engine of laravel-property-bag. Each
resource (a user, a group) has a settings object. It combines two things:

- a read-only **registry**, mapping each setting key to a default value and
  an optional list of allowed values;
- the resource's sparse **override table**, mapping a key to its stored
  value. Only `set` changes this table.

The engine answers `isRegistered`, `isValid`, `get`, `getDefault`,
`getAllowed` and `all`, and applies `set` batches. A `set` pair is skipped
when its key is unknown or its value is not allowed. When the value equals
the default, the pair deletes the key's row. Any other value creates or
replaces the row. The central invariant (`Overrides.Sparse`) is that a row
exists for a key exactly when the stored value is valid and differs from
the key's default.

Layout:

- `wrappers.dfy`: `Option`. PHP's `null` result is `None`.
- `settings.dfy`: values tagged by type, setting definitions, the validator
  and the registry lookups.
- `overrides.dfy`: the override table as a value. It specifies `get`
  (`Effective`) and `set` (`ApplyPair`, `ApplyBatch`). `RowAfter` is a
  reference definition that decides each key's row by the last valid pair
  for that key alone. This file also holds the lemmas about batches.
- `engine.dfy`: class `SettingsEngine`. Its `overrides` field is the
  resource's table. `Set` updates it in a loop and is proved equal to
  `ApplyBatch`.
- `fixture.dfy`: the registry the unit tests use, plus one method per
  unit test. Each method drives a fresh engine and its `ensures` states
  what the test asserts. Three of them differ from their test, and one
  reads back something other than what its test intends:
  - `DefaultIgnoresOverrides` also reads the default again after an
    override is stored.
  - `KeyIsRegistered` asks the engine bound to the test registry, where
    the test asks a group's settings object.
  - `GetAfterSet` writes `true` to `test_settings2`, as its test does. With
    the chosen default `true`, that write is elided, so `get` returns the
    default rather than a stored row. `NewSettingCreatesRow` and
    `ReplaceExistingRow` cover reading back a stored row.
  - `ReplaceExistingRow` has no test of its own. It replaces a stored row,
    which `UpdateReplacesRow` does not do, because there the first write is
    the default and is elided.

The implementation classes are not part of this model. Only their test
suite, `tests/UnitTest.php`, is modelled, so the behaviour here is the
behaviour those tests fix. Some points the tests leave open are resolved
as follows:

- An unrestricted definition (`allowed` is `None`) accepts any value of the
  same type as its default. The tests never use one.
- The test fixture is not part of this model either. The tests fix
  `test_settings1` completely. For `test_settings2` they show only that
  `false` is accepted and is not the default, and that `"ok"` is rejected.
  For `test_settings3` they show only that `true` is accepted and is not the
  default. Beyond that, `Fixture.Registered` makes a choice: both keys
  accept exactly `true` and `false`, and their defaults are `true` and
  `false` respectively. `Fixture.RegisteredMatchesTestFacts` checks the
  revealed facts against this choice.
- `set` receives a PHP array, so a key occurs at most once in a batch.
  `SettingsEngine.Set` requires distinct keys. `DistinctBatchAsArray` shows
  that such a batch writes each of its keys once, with that key's own value.
- `all()` returns the override table only, without the defaults merged in.
- Values are compared by value and type (`I(0) != B(false)`), which matches
  a strict `in_array`.

## Model

| member | source | states |
|---|---|---|
| `Overrides.Sparse` | tests/UnitTest.php:258-285 | the storage invariant; every row belongs to a registered key |
| `Overrides.SparseIffRowsAreCustomisations` | tests/UnitTest.php:258-285 | the storage invariant holds exactly when a row exists for a key iff `get` yields a valid value for it that is not its default |
| `Overrides.ApplyBatch` | tests/UnitTest.php:97-152 | `set(pairs)` on the table, pair after pair; a key that no pair names keeps its row |
| `Overrides.DistinctBatchAsArray` | tests/UnitTest.php:145-152 | for a batch with distinct keys (a PHP array), each key of the array ends with the row its own value decides (skipped if invalid, deleted if the default, stored otherwise), and every other key keeps its row |
| `Settings.IsRegistered` | tests/UnitTest.php:230-237 | a key is registered exactly when it has a default |
| `Settings.IsValid` | tests/UnitTest.php:39-82 | false for an unregistered key; for a restricted key, true exactly when the value occurs in the allowed list (by value and type); for an unrestricted key, true exactly when the value has the default's type |
| `Settings.DefaultOf` | tests/UnitTest.php:290-301 | the declared default of a registered key, `None` for an unknown one |
| `Settings.AllowedOf` | tests/UnitTest.php:306-317 | for a registered key, the declared allowed list itself, in declaration order (`None` when unrestricted); `None` for an unknown key; when it returns a list, its members are exactly the values `IsValid` accepts |
| `Overrides.Effective` | tests/UnitTest.php:170-225 | `get`: `None` exactly for unknown keys; the default when no row exists; under the storage invariant, a row exists exactly when the result differs from the default, and then the result is that row |
| `Overrides.ApplyPair` | tests/UnitTest.php:258-285 | one `set` step: an invalid pair changes nothing; a valid one makes `get` return the value written, leaves a row exactly when that value is not the default, and leaves every other key's row as it was |
| `Overrides.LastValid` | tests/UnitTest.php:145-152 | the value of the last valid pair for a key; `None` exactly when no pair validly writes the key |
| `Overrides.BatchRowAt` | tests/UnitTest.php:135-165 | after a `set` batch, each key's row is the one its last valid pair decides (deleted if that value is the default); keys with no valid pair keep their old row |
| `Overrides.BatchIdempotent` | tests/UnitTest.php:111-130 | applying the same batch twice leaves the same table as applying it once; this generalises the repeated writes of those lines rather than being shown by them |
| `Overrides.UntouchedKeyKeepsRow` | tests/UnitTest.php:63-81 | a key that only has invalid or unregistered pairs in a batch keeps both its row and its `get` value; this carries the `isValid` rejections of those lines over to `set`, which they do not call |
| `Overrides.BatchPreservesSparse` | tests/UnitTest.php:258-285 | every batch preserves the storage invariant: no row for an unknown key, an invalid value or the default value |
| `Overrides.SetThenGet` | tests/UnitTest.php:170-181 | after setting a valid value, `get` returns it, and a row exists exactly when the value is not the default |
| `Overrides.PairsToMap` | tests/UnitTest.php:145-148 | the batch read as a PHP array: its keys are exactly the keys of the pairs, and each key maps to the value of its last pair |
| `Overrides.BatchOfCustomValues` | tests/UnitTest.php:135-165 | a batch of valid non-default values is applied in full: the table is the old one overridden by every pair of the batch |
| `Engine.SettingsEngine.constructor` | tests/UnitTest.php:87-95 | binds the engine to a registry and to a table that meets the storage invariant (empty for a new resource) |
| `Engine.SettingsEngine.IsRegistered` | tests/UnitTest.php:236 | registered exactly when `getDefault` returns a value |
| `Engine.SettingsEngine.IsValid` | tests/UnitTest.php:47-81 | false for an unregistered key; true exactly for members of the allowed list, or for values of the default's type when the key is unrestricted |
| `Engine.SettingsEngine.GetDefault` | tests/UnitTest.php:298-300 | the registry's default, whatever the overrides are; `None` for an unknown key |
| `Engine.SettingsEngine.GetAllowed` | tests/UnitTest.php:314-316 | the allowed list as declared, in declaration order |
| `Engine.SettingsEngine.Get` | tests/UnitTest.php:176-224 | `None` exactly for unknown keys; the stored override when there is one; a row exists exactly when `get` differs from `getDefault` |
| `Engine.SettingsEngine.All` | tests/UnitTest.php:95-99 | exactly the stored override table, with no defaults merged in; each entry is a registered key holding a valid value that is not its default |
| `Engine.SettingsEngine.Set` | tests/UnitTest.php:97-152 | for a batch with distinct keys, updates the table in place, pair by pair, exactly as `ApplyBatch` specifies, and keeps the storage invariant |
| `Fixture.RegisteredMatchesTestFacts` | tests/UnitTest.php:79-316 | the test registry has default `'monkey'` and allowed list `['bananas', 'grapes', 8, 'monkey']` for `test_settings1`; it accepts a non-default `false` for `test_settings2` and rejects `'ok'`; it accepts a non-default `true` for `test_settings3`; `'fake'` and `'invalid_setting'` are unknown |
| `Fixture.ValidPairPassesValidation` | tests/UnitTest.php:47-49 | `isValid('test_settings1', 'bananas')` is true |
| `Fixture.UnknownKeyFailsValidation` | tests/UnitTest.php:63-65 | `isValid('fake', true)` is false |
| `Fixture.InvalidValueFailsValidation` | tests/UnitTest.php:79-81 | `isValid('test_settings2', 'ok')` is false |
| `Fixture.NewSettingCreatesRow` | tests/UnitTest.php:95-105 | `all()` is empty on a new resource; after setting `test_settings3` to `true` it holds exactly that row |
| `Fixture.UpdateReplacesRow` | tests/UnitTest.php:119-129 | setting `test_settings2` to `true` and then `false` leaves exactly one row, holding `false` |
| `Fixture.ReplaceExistingRow` | tests/UnitTest.php:111-130 | a stored `'grapes'` row is replaced by `'bananas'`, leaving exactly that one row; this extends those lines to a first write that is not the default |
| `Fixture.SetManyAtOnce` | tests/UnitTest.php:143-164 | one batch of two valid non-default pairs leaves `all()` equal to that batch |
| `Fixture.GetAfterSet` | tests/UnitTest.php:176-180 | `get` returns the value just set; with the chosen default `true`, that value is the default, so no row is read back |
| `Fixture.UnsetReturnsDefault` | tests/UnitTest.php:208-210 | `get` of a key never set returns its default `'monkey'` |
| `Fixture.UnknownSettingIsNull` | tests/UnitTest.php:222-224 | `get` of an unknown key returns `None` |
| `Fixture.KeyIsRegistered` | tests/UnitTest.php:230-237 | `isRegistered('test_settings1')` is true, asked of the engine bound to the test registry rather than of a group's settings object |
| `Fixture.RepeatedReadsAgree` | tests/UnitTest.php:248-252 | two reads of the same key give the same value, the default |
| `Fixture.DefaultDeletesRow` | tests/UnitTest.php:266-284 | setting `'grapes'` creates the row; setting the default `'monkey'` back removes it |
| `Fixture.DefaultIgnoresOverrides` | tests/UnitTest.php:290-301 | `getDefault` returns `'monkey'` for a key never set, as those lines assert, and still returns it after an override is stored |
| `Fixture.AllowedInDeclarationOrder` | tests/UnitTest.php:314-316 | `getAllowed` returns `['bananas', 'grapes', 8, 'monkey']` in that order |

## Left out

- Resource wiring: `$user->settings()`, the global `settings()` helper, authentication with `actingAs`, and `makeUser`/`makeGroup` (tests/UnitTest.php:13-34, 186-197). The engine is bound explicitly to one registry and one table.
- Persistence: the database table `user_property_bag` and the `seeInDatabase`/`dontSeeInDatabase` checks. The store is the `overrides` map, and a row is a key of that map.
- The encoding of stored values as a JSON array wrapping the scalar (tests/UnitTest.php:104). Values are kept as the tagged `Value`.
- Floating-point values. The tests never use them.
- The debug dump at tests/UnitTest.php:313, which stops that test before its `getAllowed` assertion. The assertion at line 316 is modelled instead.
- Concurrent writers, last-write-wins races and store failures, which belong to the persistence layer.
- `Overrides.ApplyBatch` is defined for any sequence of pairs. When a key repeats, it applies the repeats as successive `set` calls, and no PHP array can express such a batch. `SettingsEngine.Set` accepts only batches with distinct keys.
- Caching of the settings object on the resource (tests/UnitTest.php:242-253). This is modelled only as repeated reads on one engine.

/**
 * The sparse override table of one resource, as a value.
 *
 * `ov` maps a setting key to the value stored for it. A row exists only for a
 * key that was set to a valid value different from its default (the
 * default-elision rule). These functions specify `get` and `set`; the engine
 * class implements them on its own state.
 */
module Overrides {

  import opened Wrappers
  import opened Settings

  type Table = map<string, Value>

  /** The stored row for a key, if any. */
  function Lookup(ov: Table, key: string): Option<Value>
  {
    if key in ov then Some(ov[key]) else None
  }

  /** The storage invariant: every row belongs to a registered key, holds a
      valid value, and differs from that key's default. */
  ghost predicate Sparse(reg: Registry, ov: Table)
    ensures Sparse(reg, ov) ==> ov.Keys <= reg.Keys
  {
    forall k :: k in ov ==> IsValid(reg, k, ov[k]) && ov[k] != reg[k].default
  }

  /** The storage invariant read key by key: a row exists for a key exactly
      when `get` yields a valid value for it that is not its default. */
  lemma SparseIffRowsAreCustomisations(reg: Registry, ov: Table)
    ensures Sparse(reg, ov) <==>
      forall k :: k in ov <==> (Effective(reg, ov, k).Some? && Customises(reg, k, Effective(reg, ov, k).value))
  {
  }

  /** `get(key)`: the stored override if there is one, else the default, else
      `None` for an unknown key. Under the storage invariant a row exists
      exactly when the effective value differs from the default. */
  function Effective(reg: Registry, ov: Table, key: string): (r: Option<Value>)
    ensures r.None? <==> !IsRegistered(reg, key)
    ensures key !in ov ==> r == DefaultOf(reg, key)
    ensures Sparse(reg, ov) && key in reg ==> (key in ov <==> r != DefaultOf(reg, key))
    ensures Sparse(reg, ov) && key in ov ==> r == Lookup(ov, key)
  {
    if key !in reg then None
    else if key in ov then Some(ov[key])
    else Some(reg[key].default)
  }

  /** One step of `set`: an invalid or unregistered pair is skipped; a value
      equal to the default deletes the row; any other value upserts it. */
  function ApplyPair(reg: Registry, ov: Table, p: (string, Value)): (r: Table)
    ensures !IsValid(reg, p.0, p.1) ==> r == ov
    ensures IsValid(reg, p.0, p.1) ==> Effective(reg, r, p.0) == Some(p.1)
    ensures IsValid(reg, p.0, p.1) ==> (p.0 in r <==> p.1 != reg[p.0].default)
    ensures forall k :: k != p.0 ==> Lookup(r, k) == Lookup(ov, k)
  {
    var (key, v) := p;
    if !IsValid(reg, key, v) then ov
    else if v == reg[key].default then ov - {key}
    else ov[key := v]
  }

  /** `set(pairs)`: the pairs applied in order. Defined from the last pair
      backwards, so that the batch `pairs[..i+1]` is `pairs[..i]` then one step. */
  function ApplyBatch(reg: Registry, ov: Table, pairs: seq<(string, Value)>): (r: Table)
    ensures forall k :: !NamesKey(pairs, k) ==> Lookup(r, k) == Lookup(ov, k)
    decreases |pairs|
  {
    if |pairs| == 0 then ov
    else
      var n := |pairs| - 1;
      var prev := ApplyBatch(reg, ov, pairs[..n]);
      assert forall k :: !NamesKey(pairs, k) ==> k != pairs[n].0 && !NamesKey(pairs[..n], k) by {
        forall k | NamesKey(pairs[..n], k) ensures NamesKey(pairs, k) {
          var i :| 0 <= i < n && pairs[..n][i].0 == k;
          assert pairs[i].0 == k;
        }
        forall k | k == pairs[n].0 ensures NamesKey(pairs, k) {
          assert pairs[n].0 == k;
        }
      }
      ApplyPair(reg, prev, pairs[n])
  }

  /** Whether pair `i` of the batch is a valid write to `key`. */
  predicate WritesKey(reg: Registry, pairs: seq<(string, Value)>, i: int, key: string)
    requires 0 <= i < |pairs|
  {
    pairs[i].0 == key && IsValid(reg, key, pairs[i].1)
  }

  /** The value of the last valid pair for `key` in the batch, if any. */
  function LastValid(reg: Registry, pairs: seq<(string, Value)>, key: string): (r: Option<Value>)
    ensures r.None? <==> forall i :: 0 <= i < |pairs| ==> !WritesKey(reg, pairs, i, key)
    ensures r.Some? ==>
      exists i :: (0 <= i < |pairs| && WritesKey(reg, pairs, i, key) && pairs[i].1 == r.value
                   && forall j :: i < j < |pairs| ==> !WritesKey(reg, pairs, j, key))
    decreases |pairs|
  {
    if |pairs| == 0 then None
    else
      var n := |pairs| - 1;
      if WritesKey(reg, pairs, n, key) then Some(pairs[n].1)
      else
        var r := LastValid(reg, pairs[..n], key);
        assert forall i :: 0 <= i < n ==> (WritesKey(reg, pairs[..n], i, key) <==> WritesKey(reg, pairs, i, key));
        r
  }

  /** Reference definition of the row a key holds after a batch: decided by
      the last valid pair for that key alone, or the old row if there is none. */
  function RowAfter(reg: Registry, ov: Table, pairs: seq<(string, Value)>, key: string): Option<Value>
  {
    match LastValid(reg, pairs, key)
    case None => Lookup(ov, key)
    case Some(v) => if v == reg[key].default then None else Some(v)
  }

  /** `set` agrees with the reference: each key's row is that of its last
      valid pair, and keys with no valid pair keep their old row. */
  lemma {:induction false} BatchRowAt(reg: Registry, ov: Table, pairs: seq<(string, Value)>, key: string)
    ensures Lookup(ApplyBatch(reg, ov, pairs), key) == RowAfter(reg, ov, pairs, key)
    decreases |pairs|
  {
    if |pairs| > 0 {
      var n := |pairs| - 1;
      BatchRowAt(reg, ov, pairs[..n], key);
      if !WritesKey(reg, pairs, n, key) {
        assert forall i :: 0 <= i < n ==> (WritesKey(reg, pairs[..n], i, key) <==> WritesKey(reg, pairs, i, key));
        assert LastValid(reg, pairs, key) == LastValid(reg, pairs[..n], key);
      }
    }
  }

  lemma MapsEqualByLookup(m1: Table, m2: Table)
    requires forall k :: Lookup(m1, k) == Lookup(m2, k)
    ensures m1 == m2
  {
    assert m1.Keys == m2.Keys by {
      forall k ensures k in m1 <==> k in m2 {
        assert Lookup(m1, k) == Lookup(m2, k);
      }
    }
    forall k | k in m1 ensures m1[k] == m2[k] {
      assert Lookup(m1, k) == Lookup(m2, k);
    }
  }

  /** Applying the same batch twice leaves the table as applying it once. */
  lemma BatchIdempotent(reg: Registry, ov: Table, pairs: seq<(string, Value)>)
    ensures ApplyBatch(reg, ApplyBatch(reg, ov, pairs), pairs) == ApplyBatch(reg, ov, pairs)
  {
    var once := ApplyBatch(reg, ov, pairs);
    forall k ensures Lookup(ApplyBatch(reg, once, pairs), k) == Lookup(once, k) {
      BatchRowAt(reg, once, pairs, k);
      BatchRowAt(reg, ov, pairs, k);
    }
    MapsEqualByLookup(ApplyBatch(reg, once, pairs), once);
  }

  /** A key no pair of the batch validly writes keeps its row: an invalid or
      unregistered pair leaves the stored state of its key unchanged, and
      the other pairs of the batch are still applied. */
  lemma UntouchedKeyKeepsRow(reg: Registry, ov: Table, pairs: seq<(string, Value)>, key: string)
    requires forall i :: 0 <= i < |pairs| && pairs[i].0 == key ==> !IsValid(reg, key, pairs[i].1)
    ensures Lookup(ApplyBatch(reg, ov, pairs), key) == Lookup(ov, key)
    ensures Effective(reg, ApplyBatch(reg, ov, pairs), key) == Effective(reg, ov, key)
  {
  }

  /** The storage invariant survives every batch. */
  lemma {:induction false} BatchPreservesSparse(reg: Registry, ov: Table, pairs: seq<(string, Value)>)
    requires Sparse(reg, ov)
    ensures Sparse(reg, ApplyBatch(reg, ov, pairs))
    decreases |pairs|
  {
    if |pairs| > 0 {
      BatchPreservesSparse(reg, ov, pairs[..|pairs| - 1]);
    }
  }

  /** A single valid write reads back: `get` returns the value written, and a
      row exists exactly when that value is not the default. */
  lemma SetThenGet(reg: Registry, ov: Table, key: string, v: Value)
    requires IsValid(reg, key, v)
    ensures Effective(reg, ApplyBatch(reg, ov, [(key, v)]), key) == Some(v)
    ensures key in ApplyBatch(reg, ov, [(key, v)]) <==> v != reg[key].default
  {
  }

  /** A value is a valid write that differs from its key's default. */
  predicate Customises(reg: Registry, key: string, v: Value)
  {
    IsValid(reg, key, v) && v != reg[key].default
  }

  /** Some pair of the batch names `key`. */
  predicate NamesKey(pairs: seq<(string, Value)>, key: string)
  {
    exists i :: 0 <= i < |pairs| && pairs[i].0 == key
  }

  /** Pair `i` is the last pair of the batch for its key. */
  predicate LastOfKey(pairs: seq<(string, Value)>, i: int)
    requires 0 <= i < |pairs|
  {
    forall j :: i < j < |pairs| ==> pairs[j].0 != pairs[i].0
  }

  /** The batch as a table, later pairs overriding earlier ones as in a PHP
      array: its keys are those of the pairs, and each maps to the value of
      its last pair. */
  function PairsToMap(pairs: seq<(string, Value)>): (m: Table)
    ensures forall k :: k in m <==> NamesKey(pairs, k)
    ensures forall i :: 0 <= i < |pairs| && LastOfKey(pairs, i) ==> pairs[i].0 in m && m[pairs[i].0] == pairs[i].1
    decreases |pairs|
  {
    if |pairs| == 0 then map[]
    else
      var n := |pairs| - 1;
      var prev := PairsToMap(pairs[..n]);
      var m := prev[pairs[n].0 := pairs[n].1];
      PairsToMapStep(pairs, pairs[..n], pairs[n], prev, m);
      m
  }

  /** One more pair `p` extends the table `prev` of the pairs before it. */
  lemma PairsToMapStep(pairs: seq<(string, Value)>, prefix: seq<(string, Value)>, p: (string, Value), prev: Table, m: Table)
    requires |pairs| > 0 && prefix == pairs[..|pairs| - 1] && p == pairs[|pairs| - 1]
    requires m == prev[p.0 := p.1]
    requires forall k :: k in prev <==> NamesKey(prefix, k)
    requires forall i :: 0 <= i < |prefix| && LastOfKey(prefix, i) ==> prefix[i].0 in prev && prev[prefix[i].0] == prefix[i].1
    ensures forall k :: k in m <==> NamesKey(pairs, k)
    ensures forall i :: 0 <= i < |pairs| && LastOfKey(pairs, i) ==> pairs[i].0 in m && m[pairs[i].0] == pairs[i].1
  {
    assert pairs == prefix + [p];
    forall k ensures k in m <==> NamesKey(pairs, k) {
      StepKey(pairs, prefix, p, prev, k);
    }
    forall i | 0 <= i < |prefix| && LastOfKey(pairs, i) ensures pairs[i].0 in m && m[pairs[i].0] == pairs[i].1 {
      StepValue(pairs, prefix, p, i);
    }
  }

  lemma StepKey(pairs: seq<(string, Value)>, prefix: seq<(string, Value)>, p: (string, Value), prev: Table, k: string)
    requires pairs == prefix + [p]
    requires k in prev <==> NamesKey(prefix, k)
    ensures (k in prev || k == p.0) <==> NamesKey(pairs, k)
  {
    if k in prev {
      var i :| 0 <= i < |prefix| && prefix[i].0 == k;
      assert pairs[i].0 == k;
    }
    if k == p.0 {
      assert pairs[|prefix|].0 == k;
    }
    if NamesKey(pairs, k) {
      var i :| 0 <= i < |pairs| && pairs[i].0 == k;
      if i < |prefix| {
        assert prefix[i].0 == k;
      }
    }
  }

  lemma StepValue(pairs: seq<(string, Value)>, prefix: seq<(string, Value)>, p: (string, Value), i: int)
    requires pairs == prefix + [p]
    requires 0 <= i < |prefix| && LastOfKey(pairs, i)
    ensures prefix[i] == pairs[i] && LastOfKey(prefix, i) && p.0 != pairs[i].0
  {
    forall j | i < j < |prefix| ensures prefix[j].0 != prefix[i].0 {
      assert prefix[j] == pairs[j];
    }
    assert pairs[|prefix|] == p;
  }

  /** No key occurs twice in the batch, as in a PHP array. */
  predicate DistinctKeys(pairs: seq<(string, Value)>)
  {
    forall i, j :: 0 <= i < j < |pairs| ==> pairs[i].0 != pairs[j].0
  }

  /** The row a key holds after one write of `v` to it. */
  function RowFromWrite(reg: Registry, ov: Table, key: string, v: Value): Option<Value>
  {
    if !IsValid(reg, key, v) then Lookup(ov, key)
    else if v == reg[key].default then None
    else Some(v)
  }

  /** For a batch with distinct keys, `set` treats it as a PHP array: each key
      of the array is written once with its own value, and keys outside the
      array keep their row. */
  lemma {:induction false} DistinctBatchAsArray(reg: Registry, ov: Table, pairs: seq<(string, Value)>, key: string)
    requires DistinctKeys(pairs)
    ensures Lookup(ApplyBatch(reg, ov, pairs), key) ==
      if key in PairsToMap(pairs) then RowFromWrite(reg, ov, key, PairsToMap(pairs)[key])
      else Lookup(ov, key)
    decreases |pairs|
  {
    if |pairs| > 0 {
      var n := |pairs| - 1;
      var prefix := pairs[..n];
      assert DistinctKeys(prefix) by {
        forall i, j | 0 <= i < j < n ensures prefix[i].0 != prefix[j].0 {
          assert prefix[i] == pairs[i] && prefix[j] == pairs[j];
        }
      }
      DistinctBatchAsArray(reg, ov, prefix, key);
    }
  }

  lemma UpdateAfterUnion(ov: Table, t: Table, key: string, v: Value)
    ensures (ov + t)[key := v] == ov + t[key := v]
  {
  }

  /** A batch of valid non-default values is applied in full: every pair
      becomes a row, on top of the rows the batch does not touch. */
  lemma {:induction false} BatchOfCustomValues(reg: Registry, ov: Table, pairs: seq<(string, Value)>)
    requires forall i :: 0 <= i < |pairs| ==> Customises(reg, pairs[i].0, pairs[i].1)
    ensures ApplyBatch(reg, ov, pairs) == ov + PairsToMap(pairs)
    decreases |pairs|
  {
    if |pairs| > 0 {
      var n := |pairs| - 1;
      var (key, v) := pairs[n];
      BatchOfCustomValues(reg, ov, pairs[..n]);
      var before := PairsToMap(pairs[..n]);
      assert Customises(reg, key, v);
      assert ApplyBatch(reg, ov, pairs) == (ov + before)[key := v];
      UpdateAfterUnion(ov, before, key, v);
    }
  }
}

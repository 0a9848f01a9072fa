/** A Go map filled by a loop that, item by item, either performs a write
    `m[k] = v`, skips the item, or panics. The map is the result of the
    writes in order, so the last write to a key decides its value, and the
    first panic ends the loop. The MIME table and the status-code mapping
    are both built this way. */
module Assoc {
  import opened Wrappers

  /** What the loop makes of one item. */
  type Step<!T, K, V, E> = T -> Result<Option<(K, V)>, E>

  /** The outcome of the loop over `items`: the map, or the first panic. */
  function Collect<T, K(==), V, E>(step: Step<T, K, V, E>, items: seq<T>): Result<map<K, V>, E>
    decreases |items|
  {
    if items == [] then Ok(map[])
    else
      match Collect(step, items[..|items| - 1])
      case Err(e) => Err(e)
      case Ok(m) =>
        match step(items[|items| - 1])
        case Err(e) => Err(e)
        case Ok(None) => Ok(m)
        case Ok(Some(kv)) => Ok(m[kv.0 := kv.1])
  }

  /** Whether `step` makes `item` a write to key `k`. */
  predicate WritesKey<T, K(==), V, E>(step: Step<T, K, V, E>, item: T, k: K) {
    step(item).Ok? && step(item).value.Some? && step(item).value.value.0 == k
  }

  /** Once the loop has panicked, later items do not matter. */
  lemma {:induction false} CollectErrorSticks<T, K, V, E>(step: Step<T, K, V, E>, items: seq<T>, n: nat)
    requires n <= |items| && Collect(step, items[..n]).Err?
    ensures Collect(step, items) == Collect(step, items[..n])
    decreases |items| - n
  {
    if n < |items| {
      var init := items[..|items| - 1];
      assert init[..n] == items[..n];
      CollectErrorSticks(step, init, n);
    } else {
      assert items[..n] == items;
    }
  }

  /** The loop succeeds exactly when no item panics. */
  lemma {:induction false} CollectSucceeds<T, K, V, E>(step: Step<T, K, V, E>, items: seq<T>)
    ensures Collect(step, items).Ok? <==> forall i | 0 <= i < |items| :: step(items[i]).Ok?
    decreases |items|
  {
    if items != [] {
      var init := items[..|items| - 1];
      CollectSucceeds(step, init);
      if forall i | 0 <= i < |items| :: step(items[i]).Ok? {
        forall i | 0 <= i < |init| ensures step(init[i]).Ok? {
          assert init[i] == items[i];
        }
      }
    }
  }

  /** The loop panics with the panic of the first item that panics. */
  lemma CollectFirstError<T, K, V, E>(step: Step<T, K, V, E>, items: seq<T>, n: nat)
    requires n < |items| && step(items[n]).Err?
    requires forall i | 0 <= i < n :: step(items[i]).Ok?
    ensures Collect(step, items) == Err(step(items[n]).error)
  {
    var prefix := items[..n];
    forall i | 0 <= i < n ensures step(prefix[i]).Ok? {
      assert prefix[i] == items[i];
    }
    CollectSucceeds(step, prefix);
    assert items[..n + 1][..n] == prefix;
    CollectErrorSticks(step, items, n + 1);
  }

  /** After a successful loop, a key is in the map exactly when some item
      writes to it. */
  lemma {:induction false} CollectKeys<T, K, V, E>(step: Step<T, K, V, E>, items: seq<T>, k: K)
    requires Collect(step, items).Ok?
    ensures k in Collect(step, items).value <==> exists i | 0 <= i < |items| :: WritesKey(step, items[i], k)
    decreases |items|
  {
    if items != [] {
      var init := items[..|items| - 1];
      CollectKeys(step, init, k);
      if exists i | 0 <= i < |init| :: WritesKey(step, init[i], k) {
        var i :| 0 <= i < |init| && WritesKey(step, init[i], k);
        assert init[i] == items[i];
      }
      if exists i | 0 <= i < |items| :: WritesKey(step, items[i], k) {
        var i :| 0 <= i < |items| && WritesKey(step, items[i], k);
        if i < |init| {
          assert init[i] == items[i];
        }
      }
    }
  }

  /** After a successful loop, a key holds the value of the last write to
      it: a later write overwrites an earlier one. */
  lemma {:induction false} CollectLastWins<T, K, V, E>(step: Step<T, K, V, E>, items: seq<T>, i: nat, k: K, v: V)
    requires Collect(step, items).Ok?
    requires i < |items| && step(items[i]) == Ok(Some((k, v)))
    requires forall j | i < j < |items| :: !WritesKey(step, items[j], k)
    ensures k in Collect(step, items).value && Collect(step, items).value[k] == v
    decreases |items|
  {
    var init := items[..|items| - 1];
    if i < |items| - 1 {
      assert !WritesKey(step, items[|items| - 1], k);
      assert init[i] == items[i];
      CollectLastWins(step, init, i, k, v);
    }
  }

  /** The map obtained by writing each pair in order. */
  function FromPairs<K(==), V>(pairs: seq<(K, V)>): map<K, V>
    decreases |pairs|
  {
    if pairs == [] then map[]
    else FromPairs(pairs[..|pairs| - 1])[pairs[|pairs| - 1].0 := pairs[|pairs| - 1].1]
  }

  /** A loop in which every item is a write builds the map of those
      writes, in order. */
  lemma {:induction false} CollectAllWrites<T, K, V, E>(step: Step<T, K, V, E>, items: seq<T>, pairs: seq<(K, V)>)
    requires |items| == |pairs|
    requires forall i | 0 <= i < |items| :: step(items[i]) == Ok(Some(pairs[i]))
    ensures Collect(step, items) == Ok(FromPairs(pairs))
    decreases |items|
  {
    if items != [] {
      var n := |items| - 1;
      forall i | 0 <= i < n ensures step(items[..n][i]) == Ok(Some(pairs[..n][i])) {
        assert items[..n][i] == items[i];
      }
      CollectAllWrites(step, items[..n], pairs[..n]);
    }
  }
}

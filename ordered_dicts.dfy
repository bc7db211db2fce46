/**
 * The two `OrderedDict` subclasses of pytutils/mappings.py that change what
 * an assignment does.
 */
module OrderedDicts {
  import opened Wrappers
  import opened PyValues
  import opened PyDict

  /** `LastUpdatedOrderedDict`: keys ordered by their last assignment. */
  class LastUpdatedOrderedDict {
    const entries: Dict

    constructor ()
      ensures fresh(entries) && entries.Valid() && entries.order == [] && entries.items == map[]
    {
      entries := new Dict();
    }

    /** `d[k] = v`: an existing key is deleted first, so the assignment puts
        it at the end whether or not it was there before. */
    method Set(k: Key, v: Value)
      requires entries.Valid()
      modifies entries
      ensures entries.Valid()
      ensures entries.items == old(entries.items)[k := v]
      ensures entries.order == Without(old(entries.order), k) + [k]
    {
      var present := entries.Contains(k);
      if present {
        var _ := entries.Delete(k);
      } else {
        WithoutAbsent(entries.order, k);
      }
      entries.Set(k, v);
    }
  }

  /** The order after assigning `k`: last, with every other key keeping its
      relative place, and one more key only when `k` is new. */
  lemma MovedToEnd(before: seq<Key>, k: Key)
    requires Distinct(before)
    ensures var after := Without(before, k) + [k];
      && after[|after| - 1] == k
      && IsSubsequence(after[..|after| - 1], before)
      && |after| == if k in before then |before| else |before| + 1
  {
    var after := Without(before, k) + [k];
    assert after[..|after| - 1] == Without(before, k);
    WithoutKeepsOrder(before, k);
    WithoutDistinct(before, k);
  }

  /** `MultiDict`: assigning a dict to a key that is already present stores it
      under the key with a per-instance counter appended instead. The store
      bypasses `OrderedDict`'s own bookkeeping, so only the entries are kept. */
  class MultiDict {
    var items: map<Key, Value>
    var unique: nat

    constructor ()
      ensures items == map[] && unique == 0
    {
      items, unique := map[], 0;
    }

    /** `d[key] = val`: the counter is bumped before `key += str(counter)`,
        which raises `TypeError` for a key that is not a string. */
    method Set(key: Key, val: Value) returns (r: Result<(), PyError>)
      modifies this
      ensures old(val.DictObj? && key in items) ==> unique == old(unique) + 1
      ensures !old(val.DictObj? && key in items) ==> unique == old(unique) && r == Ok(()) && items == old(items)[key := val]
      ensures old(val.DictObj? && key in items) && key.OKey? ==> r == Err(TypeError) && items == old(items)
      ensures old(val.DictObj? && key in items) && key.SKey? ==>
                r == Ok(()) && items == old(items)[SKey(key.s + NatToStr(unique)) := val]
      ensures old(key in items) && (val.DictObj? || r.Err?) ==> key in items && items[key] == old(items[key])
    {
      var k := key;
      if val.DictObj? && k in items {
        unique := unique + 1;
        if k.OKey? {
          return Err(TypeError);
        }
        k := SKey(k.s + NatToStr(unique));
        assert |k.s| > |key.s|;
      }
      items := items[k := val];
      return Ok(());
    }
  }
}

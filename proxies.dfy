/**
 * The mapping proxies of pytutils/mappings.py and utils.py: objects that hold
 * a reference to a caller's dict and forward every access to it, optionally
 * translating the key first.
 */
module Proxies {
  import opened Wrappers
  import opened PyValues
  import opened PyDict

  /** `ProxyMutableMapping`: every operation goes straight to the wrapped dict,
      so the caller's own object sees each change. */
  class Proxy {
    const mapping: Dict

    constructor (mapping: Dict)
      ensures this.mapping == mapping
    {
      this.mapping := mapping;
    }

    method Contains(k: Key) returns (b: bool)
      ensures b <==> k in mapping.items
    {
      b := mapping.Contains(k);
    }

    method Get(k: Key) returns (r: Result<Value, PyError>)
      ensures k in mapping.items ==> r == Ok(mapping.items[k])
      ensures k !in mapping.items ==> r == Err(KeyError(k))
    {
      r := mapping.Get(k);
    }

    /** Writes through: the wrapped dict gets the entry, nothing else changes. */
    method Set(k: Key, v: Value)
      requires mapping.Valid()
      modifies mapping
      ensures mapping.Valid()
      ensures mapping.items == old(mapping.items)[k := v]
      ensures forall j :: j in old(mapping.items) && j != k ==> j in mapping.items && mapping.items[j] == old(mapping.items)[j]
      ensures mapping.order == if k in old(mapping.items) then old(mapping.order) else old(mapping.order) + [k]
    {
      mapping.Set(k, v);
    }

    method Delete(k: Key) returns (r: Result<(), PyError>)
      requires mapping.Valid()
      modifies mapping
      ensures mapping.Valid()
      ensures k in old(mapping.items) ==>
        r == Ok(()) && mapping.items == old(mapping.items) - {k} && mapping.order == Without(old(mapping.order), k)
      ensures k !in old(mapping.items) ==>
        r == Err(KeyError(k)) && mapping.items == old(mapping.items) && mapping.order == old(mapping.order)
      ensures forall j :: j in old(mapping.items) && j != k ==> j in mapping.items && mapping.items[j] == old(mapping.items)[j]
    {
      r := mapping.Delete(k);
    }

    /** `iter(proxy)`: the wrapped dict's keys in its order. */
    method Iter() returns (keys: seq<Key>)
      requires mapping.Valid()
      ensures keys == mapping.order
      ensures Distinct(keys) && forall k :: k in keys <==> k in mapping.items
    {
      keys := mapping.order;
    }

    method Len() returns (n: nat)
      requires mapping.Valid()
      ensures n == |mapping.items|
    {
      n := mapping.Len();
    }
  }

  // ---------------------------------------------------------------------------
  // The key helpers of the prefixed proxies.
  // ---------------------------------------------------------------------------

  /** `prefix + key`: a string key gets the prefix in front; adding a str to
      anything else raises `TypeError`. */
  function AddPrefix(prefix: string, key: Key): (r: Result<Key, PyError>)
    ensures r.Ok? <==> key.SKey?
    ensures r.Ok? ==> key.SKey? && r.value.SKey? && |r.value.s| == |prefix| + |key.s|
    ensures r.Ok? ==> key.SKey? && r.value.SKey? && r.value.s[..|prefix|] == prefix && r.value.s[|prefix|..] == key.s
    ensures r.Err? ==> r.error == TypeError
  {
    match key
    case SKey(s) => Ok(SKey(prefix + s))
    case OKey(_) => Err(TypeError)
  }

  /** `key[n:]`, which is empty when the key is shorter than `n`, as Python
      slicing is; slicing a non-string object raises `TypeError`. */
  function RemovePrefix(n: nat, key: Key): (r: Result<Key, PyError>)
    ensures r.Ok? <==> key.SKey?
    ensures r.Ok? ==> key.SKey? && r.value.SKey?
    ensures r.Ok? && n <= |key.s| ==> key.s == key.s[..n] + r.value.s
    ensures r.Ok? && n > |key.s| ==> r.value.s == []
    ensures r.Err? ==> r.error == TypeError
  {
    match key
    case SKey(s) => Ok(SKey(if n <= |s| then s[n..] else []))
    case OKey(_) => Err(TypeError)
  }

  /** `__key_allowed__`: with `only_prefixed`, only strings starting with the
      prefix; otherwise everything. */
  predicate KeyAllowed(prefix: string, onlyPrefixed: bool, key: Key)
  {
    !onlyPrefixed || (key.SKey? && |prefix| <= |key.s| && key.s[..|prefix|] == prefix)
  }

  /** `__key_trans__` of the prefixed proxy: a store strips, everything else adds. */
  function KeyTrans(prefix: string, key: Key, store: bool): Result<Key, PyError>
  {
    if store then RemovePrefix(|prefix|, key) else AddPrefix(prefix, key)
  }

  /** Stripping the prefix from an allowed key and adding it back gives the key. */
  lemma StripThenAdd(prefix: string, key: Key)
    requires KeyAllowed(prefix, true, key)
    ensures RemovePrefix(|prefix|, key).Ok?
    ensures AddPrefix(prefix, RemovePrefix(|prefix|, key).value) == Ok(key)
  {
    assert key.s == key.s[..|prefix|] + key.s[|prefix|..];
  }

  /** Adding the prefix and stripping it again gives the key, and the result is allowed. */
  lemma AddThenStrip(prefix: string, key: Key)
    requires key.SKey?
    ensures KeyAllowed(prefix, true, AddPrefix(prefix, key).value)
    ensures RemovePrefix(|prefix|, AddPrefix(prefix, key).value) == Ok(key)
  {
    assert (prefix + key.s)[|prefix|..] == key.s;
  }

  /** A store and a lookup of the same non-empty-prefixed key reach different
      entries of the wrapped dict. */
  lemma StoreAndLookupDiffer(prefix: string, key: Key)
    requires prefix != [] && key.SKey?
    ensures KeyTrans(prefix, key, true).Ok? && KeyTrans(prefix, key, false).Ok?
    ensures KeyTrans(prefix, key, true) != KeyTrans(prefix, key, false)
  {
    var stored := KeyTrans(prefix, key, true).value.s;
    var looked := KeyTrans(prefix, key, false).value.s;
    assert |stored| < |looked|;
  }

  /** What iterating the prefixed proxy yields, over the wrapped keys `keys`:
      the stripped form of each allowed key, in order; `TypeError` once an
      allowed key cannot be sliced. */
  function Visible(prefix: string, onlyPrefixed: bool, keys: seq<Key>): Result<seq<Key>, PyError>
  {
    if keys == [] then Ok([])
    else
      var init := Visible(prefix, onlyPrefixed, keys[..|keys| - 1]);
      var last := keys[|keys| - 1];
      if init.Err? then init
      else if !KeyAllowed(prefix, onlyPrefixed, last) then init
      else
        match RemovePrefix(|prefix|, last)
        case Err(e) => Err(e)
        case Ok(y) => Ok(init.value + [y])
  }

  /** Key `y` is listed for wrapped key `last` exactly when `last` is `prefix + y`. */
  lemma StripMatches(prefix: string, last: Key, y: Key)
    ensures (KeyAllowed(prefix, true, last) && y == RemovePrefix(|prefix|, last).value) <==> (y.SKey? && SKey(prefix + y.s) == last)
  {
    if KeyAllowed(prefix, true, last) {
      StripThenAdd(prefix, last);
    }
    if y.SKey? && SKey(prefix + y.s) == last {
      AddThenStrip(prefix, y);
    }
  }

  /** With `only_prefixed`, iteration never fails, and it yields exactly the
      keys `y` for which the proxy contains `y`: `prefix + y` is a wrapped key. */
  lemma {:induction false} VisibleOnlyPrefixed(prefix: string, keys: seq<Key>)
    ensures Visible(prefix, true, keys).Ok?
    ensures forall y :: y in Visible(prefix, true, keys).value <==> y.SKey? && SKey(prefix + y.s) in keys
  {
    if keys != [] {
      var init, last := keys[..|keys| - 1], keys[|keys| - 1];
      VisibleOnlyPrefixed(prefix, init);
      assert keys == init + [last];
      var tail := if KeyAllowed(prefix, true, last) then [RemovePrefix(|prefix|, last).value] else [];
      assert Visible(prefix, true, keys).value == Visible(prefix, true, init).value + tail;
      forall y ensures y in Visible(prefix, true, keys).value <==> y.SKey? && SKey(prefix + y.s) in keys {
        StripMatches(prefix, last, y);
      }
    }
  }

  /** Without `only_prefixed`, iteration fails exactly when a wrapped key is
      not a string, and otherwise yields one key per wrapped key. */
  lemma {:induction false} VisibleAllKeys(prefix: string, keys: seq<Key>)
    ensures Visible(prefix, false, keys).Ok? <==> forall i :: 0 <= i < |keys| ==> keys[i].SKey?
    ensures Visible(prefix, false, keys).Ok? ==> |Visible(prefix, false, keys).value| == |keys|
  {
    if keys != [] {
      var init := keys[..|keys| - 1];
      VisibleAllKeys(prefix, init);
      assert forall i :: 0 <= i < |init| ==> init[i] == keys[i];
    }
  }

  /** `PrefixedProxyMutableMapping` (utils.py, and the same behaviour through
      the hooks of mappings.py): lookups, membership and deletion add the
      prefix, a store strips `len(prefix)` characters, iteration strips the
      allowed keys, and `len` counts every wrapped key. */
  class PrefixedProxy {
    const prefix: string
    const onlyPrefixed: bool
    const mapping: Dict

    constructor (prefix: string, mapping: Dict, onlyPrefixed: bool)
      ensures this.prefix == prefix && this.mapping == mapping && this.onlyPrefixed == onlyPrefixed
    {
      this.prefix, this.mapping, this.onlyPrefixed := prefix, mapping, onlyPrefixed;
    }

    method Contains(k: Key) returns (r: Result<bool, PyError>)
      ensures k.OKey? ==> r == Err(TypeError)
      ensures k.SKey? ==> r == Ok(SKey(prefix + k.s) in mapping.items)
    {
      var t := AddPrefix(prefix, k);
      if t.Err? {
        return Err(t.error);
      }
      var b := mapping.Contains(t.value);
      return Ok(b);
    }

    method Get(k: Key) returns (r: Result<Value, PyError>)
      ensures k.OKey? ==> r == Err(TypeError)
      ensures k.SKey? && SKey(prefix + k.s) in mapping.items ==> r == Ok(mapping.items[SKey(prefix + k.s)])
      ensures k.SKey? && SKey(prefix + k.s) !in mapping.items ==> r == Err(KeyError(SKey(prefix + k.s)))
    {
      var t := AddPrefix(prefix, k);
      if t.Err? {
        return Err(t.error);
      }
      r := mapping.Get(t.value);
    }

    /** `proxy[k] = v` stores under `k[len(prefix):]`: the prefix is taken
        off, not put on. */
    method Set(k: Key, v: Value) returns (r: Result<(), PyError>)
      requires mapping.Valid()
      modifies mapping
      ensures mapping.Valid()
      ensures k.OKey? ==> r == Err(TypeError) && mapping.items == old(mapping.items)
      ensures k.SKey? ==> r == Ok(()) && mapping.items == old(mapping.items)[RemovePrefix(|prefix|, k).value := v]
      ensures k.OKey? ==> mapping.order == old(mapping.order)
      ensures k.SKey? ==> var t := RemovePrefix(|prefix|, k).value;
        mapping.order == if t in old(mapping.items) then old(mapping.order) else old(mapping.order) + [t]
    {
      var t := RemovePrefix(|prefix|, k);
      if t.Err? {
        return Err(t.error);
      }
      mapping.Set(t.value, v);
      return Ok(());
    }

    /** The store `Set` evidently means: under `prefix + k`, where `Get`,
        `Contains` and `Delete` look. */
    method SetPrefixed(k: Key, v: Value) returns (r: Result<(), PyError>)
      requires mapping.Valid()
      modifies mapping
      ensures mapping.Valid()
      ensures k.OKey? ==> r == Err(TypeError) && mapping.items == old(mapping.items)
      ensures k.SKey? ==> r == Ok(()) && mapping.items == old(mapping.items)[SKey(prefix + k.s) := v]
      ensures k.OKey? ==> mapping.order == old(mapping.order)
      ensures k.SKey? ==> var t := SKey(prefix + k.s);
        mapping.order == if t in old(mapping.items) then old(mapping.order) else old(mapping.order) + [t]
    {
      var t := AddPrefix(prefix, k);
      if t.Err? {
        return Err(t.error);
      }
      mapping.Set(t.value, v);
      return Ok(());
    }

    method Delete(k: Key) returns (r: Result<(), PyError>)
      requires mapping.Valid()
      modifies mapping
      ensures mapping.Valid()
      ensures k.OKey? ==> r == Err(TypeError) && mapping.items == old(mapping.items)
      ensures k.SKey? && SKey(prefix + k.s) in old(mapping.items) ==>
        r == Ok(()) && mapping.items == old(mapping.items) - {SKey(prefix + k.s)} &&
        mapping.order == Without(old(mapping.order), SKey(prefix + k.s))
      ensures k.SKey? && SKey(prefix + k.s) !in old(mapping.items) ==>
        r == Err(KeyError(SKey(prefix + k.s))) && mapping.items == old(mapping.items) && mapping.order == old(mapping.order)
      ensures k.OKey? ==> mapping.order == old(mapping.order)
    {
      var t := AddPrefix(prefix, k);
      if t.Err? {
        return Err(t.error);
      }
      r := mapping.Delete(t.value);
    }

    /** `list(proxy)`: the generator over the wrapped keys, run to its end. */
    method Iter() returns (r: Result<seq<Key>, PyError>)
      ensures r == Visible(prefix, onlyPrefixed, mapping.order)
    {
      var keys := mapping.order;
      var out: seq<Key> := [];
      var i := 0;
      while i < |keys|
        invariant 0 <= i <= |keys|
        invariant Visible(prefix, onlyPrefixed, keys[..i]) == Ok(out)
      {
        assert keys[..i + 1][..i] == keys[..i];
        var key := keys[i];
        if KeyAllowed(prefix, onlyPrefixed, key) {
          var y := RemovePrefix(|prefix|, key);
          if y.Err? {
            VisibleFailsOnward(prefix, onlyPrefixed, keys, i + 1);
            return Err(y.error);
          }
          out := out + [y.value];
        }
        i := i + 1;
      }
      assert keys[..i] == keys;
      return Ok(out);
    }

    /** `len(proxy)`: the whole wrapped dict, hidden keys included. */
    method Len() returns (n: nat)
      requires mapping.Valid()
      ensures n == |mapping.items|
    {
      n := mapping.Len();
    }
  }

  /** Once iteration has failed on a prefix of the keys it fails on all of them. */
  lemma {:induction false} VisibleFailsOnward(prefix: string, onlyPrefixed: bool, keys: seq<Key>, i: nat)
    requires i <= |keys| && Visible(prefix, onlyPrefixed, keys[..i]).Err?
    ensures Visible(prefix, onlyPrefixed, keys) == Visible(prefix, onlyPrefixed, keys[..i])
    decreases |keys| - i
  {
    if i < |keys| {
      assert keys[..i + 1][..i] == keys[..i];
      VisibleFailsOnward(prefix, onlyPrefixed, keys, i + 1);
    } else {
      assert keys[..i] == keys;
    }
  }

  /** A write through the prefixed proxy cannot be read back under the same
      key: with prefix `p_`, `proxy['x'] = v` stores under `''` while
      `proxy['x']` looks up `p_x`. */
  method SetThenGetAsWritten(v: Value) returns (r: Result<Value, PyError>)
    ensures r == Err(KeyError(SKey("p_x")))
  {
    var d := new Dict();
    var p := new PrefixedProxy("p_", d, true);
    var _ := p.Set(SKey("x"), v);
    assert RemovePrefix(2, SKey("x")) == Ok(SKey([]));
    assert d.items == map[SKey([]) := v];
    assert "p_" + "x" == "p_x" && |"p_x"| != 0;
    r := p.Get(SKey("x"));
  }

  /** With the store under `prefix + k`, a write is read back, is seen by
      membership, and is listed by iteration under the key it was written to. */
  method SetThenGetPrefixed(p: PrefixedProxy, k: string, v: Value)
    returns (got: Result<Value, PyError>, has: Result<bool, PyError>, listed: Result<seq<Key>, PyError>)
    requires p.mapping.Valid() && p.onlyPrefixed
    modifies p.mapping
    ensures got == Ok(v) && has == Ok(true)
    ensures listed.Ok? && SKey(k) in listed.value
  {
    var _ := p.SetPrefixed(SKey(k), v);
    got := p.Get(SKey(k));
    has := p.Contains(SKey(k));
    listed := p.Iter();
    VisibleOnlyPrefixed(p.prefix, p.mapping.order);
  }

  // ---------------------------------------------------------------------------
  // ProcessLocal: a hookable proxy whose key hook first checks the process id.
  // ---------------------------------------------------------------------------

  /** `ProcessLocal` (mappings.py): a dict that is replaced by a fresh empty
      one whenever a keyed access sees a process id other than the one
      recorded. `os.getpid()` is passed in as `currentPid`. */
  class ProcessLocal {
    var pid: int
    var mapping: Dict

    ghost predicate Valid()
      reads this, mapping
    {
      mapping.Valid()
    }

    /** `ProcessLocal()`: the class-level `__pid__` is -1, which no process
        id equals, so the first `_handle_pid` makes the dict. */
    constructor (currentPid: nat)
      ensures Valid() && pid == currentPid && fresh(mapping) && mapping.items == map[]
    {
      pid := currentPid;
      mapping := new Dict();
    }

    /** `_handle_pid(new_pid)`. */
    method HandlePid(newPid: int)
      modifies this
      ensures pid == newPid
      ensures old(pid) == newPid ==> mapping == old(mapping)
      ensures old(pid) != newPid ==> fresh(mapping) && mapping.Valid() && mapping.items == map[] && mapping.order == []
    {
      if pid != newPid {
        pid := newPid;
        mapping := new Dict();
      }
    }

    method Get(k: Key, currentPid: int) returns (r: Result<Value, PyError>)
      modifies this
      ensures pid == currentPid
      ensures old(pid) == currentPid ==>
                mapping == old(mapping) && r == (if k in mapping.items then Ok(mapping.items[k]) else Err(KeyError(k)))
      ensures old(pid) != currentPid ==> fresh(mapping) && mapping.Valid() && mapping.items == map[] && r == Err(KeyError(k))
    {
      HandlePid(currentPid);
      r := mapping.Get(k);
    }

    method Contains(k: Key, currentPid: int) returns (b: bool)
      modifies this
      ensures pid == currentPid
      ensures old(pid) == currentPid ==> mapping == old(mapping) && (b <==> k in mapping.items)
      ensures old(pid) != currentPid ==> fresh(mapping) && mapping.Valid() && mapping.items == map[] && !b
    {
      HandlePid(currentPid);
      b := mapping.Contains(k);
    }

    method Set(k: Key, v: Value, currentPid: int)
      requires Valid()
      modifies this, mapping
      ensures Valid() && pid == currentPid
      ensures old(pid) == currentPid ==> mapping == old(mapping) && mapping.items == old(mapping.items)[k := v]
      ensures old(pid) == currentPid ==>
                mapping.order == if k in old(mapping.items) then old(mapping.order) else old(mapping.order) + [k]
      ensures old(pid) != currentPid ==> fresh(mapping) && mapping.items == map[k := v] && mapping.order == [k]
    {
      HandlePid(currentPid);
      mapping.Set(k, v);
    }

    method Delete(k: Key, currentPid: int) returns (r: Result<(), PyError>)
      requires Valid()
      modifies this, mapping
      ensures Valid() && pid == currentPid
      ensures old(pid) == currentPid ==> mapping == old(mapping)
      ensures old(pid) == currentPid && k in old(mapping.items) ==>
                r == Ok(()) && mapping.items == old(mapping.items) - {k} && mapping.order == Without(old(mapping.order), k)
      ensures old(pid) == currentPid && k !in old(mapping.items) ==>
                r == Err(KeyError(k)) && mapping.items == old(mapping.items) && mapping.order == old(mapping.order)
      ensures old(pid) != currentPid ==> fresh(mapping) && mapping.items == map[] && mapping.order == [] && r == Err(KeyError(k))
    {
      HandlePid(currentPid);
      r := mapping.Delete(k);
    }

    /** `len(plocal)`: no process-id check. */
    method Len() returns (n: nat)
      requires Valid()
      ensures n == |mapping.items|
    {
      n := mapping.Len();
    }

    /** `iter(plocal)` as written: the inherited generator calls
        `self.__key_remove_prefix__`, which neither `ProcessLocal` nor its
        hookable base defines, so the first key raises `AttributeError`.
        No process-id check either. */
    method Iter() returns (r: Result<seq<Key>, PyError>)
      requires Valid()
      ensures mapping.items == map[] ==> r == Ok([])
      ensures mapping.items != map[] ==> r == Err(AttributeError("__key_remove_prefix__"))
    {
      var keys := mapping.order;
      if keys == [] {
        return Ok([]);
      }
      assert keys[0] in mapping.items;
      return Err(AttributeError("__key_remove_prefix__"));
    }

    /** Iteration with the identity hook the hookable base evidently means:
        the keys of the current dict in its order, each once. */
    method IterKeys() returns (keys: seq<Key>)
      requires Valid()
      ensures keys == mapping.order
      ensures Distinct(keys) && |keys| == |mapping.items| && forall k :: k in keys <==> k in mapping.items
    {
      keys := mapping.order;
    }
  }

  /** The docstring of `ProcessLocal`: a value set is read back under the same
      process id, and after a forced change of id the key is gone. */
  method ProcessLocalExample(currentPid: nat) returns (before: Result<Value, PyError>, after: Result<Value, PyError>)
    ensures before == Ok(Bool(true))
    ensures after == Err(KeyError(SKey("test")))
  {
    var plocal := new ProcessLocal(currentPid);
    plocal.Set(SKey("test"), Bool(true), currentPid);
    before := plocal.Get(SKey("test"), currentPid);
    plocal.HandlePid(-1);
    after := plocal.Get(SKey("test"), currentPid);
  }

  /** A non-empty `ProcessLocal` cannot be iterated. */
  method ProcessLocalIterAsWritten(currentPid: nat) returns (r: Result<seq<Key>, PyError>, fixed: seq<Key>)
    ensures r == Err(AttributeError("__key_remove_prefix__"))
    ensures fixed == [SKey("test")]
  {
    var plocal := new ProcessLocal(currentPid);
    plocal.Set(SKey("test"), Bool(true), currentPid);
    r := plocal.Iter();
    fixed := plocal.IterKeys();
    assert |fixed| == 1 && fixed[0] in plocal.mapping.items;
  }
}

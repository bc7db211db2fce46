/**
 * Python's built-in `dict` as the mapping helpers use it: a table of keys in
 * insertion order. Every proxy in the model holds a reference to one, so a
 * write through the proxy is a write to the very object the caller passed in.
 */
module PyDict {
  import opened Wrappers
  import opened PyValues

  predicate Distinct<T(==,!new)>(s: seq<T>)
  {
    forall i, j :: 0 <= i < j < |s| ==> s[i] != s[j]
  }

  /** `s` with `k` taken out, everything else in its order. */
  function Without<T(==,!new)>(s: seq<T>, k: T): (r: seq<T>)
    ensures forall x :: x in r <==> x in s && x != k
  {
    if s == [] then [] else (if s[0] == k then [] else [s[0]]) + Without(s[1..], k)
  }

  /** Taking out a key that is present shortens a list without repeats by one,
      and leaves it without repeats. */
  lemma {:induction false} WithoutDistinct<T(!new)>(s: seq<T>, k: T)
    requires Distinct(s)
    ensures Distinct(Without(s, k))
    ensures |Without(s, k)| == if k in s then |s| - 1 else |s|
  {
    if s != [] {
      assert Distinct(s[1..]) by {
        forall i, j | 0 <= i < j < |s[1..]| ensures s[1..][i] != s[1..][j] {
          assert s[1..][i] == s[i + 1] && s[1..][j] == s[j + 1];
        }
      }
      WithoutDistinct(s[1..], k);
      var w := Without(s[1..], k);
      if s[0] != k {
        assert s[0] !in s[1..] by {
          forall i | 0 <= i < |s[1..]| ensures s[1..][i] != s[0] {
            assert s[1..][i] == s[i + 1];
          }
        }
        assert s[0] !in w;
        forall i, j | 0 <= i < j < |[s[0]] + w| ensures ([s[0]] + w)[i] != ([s[0]] + w)[j] {
          if i == 0 {
            assert ([s[0]] + w)[j] == w[j - 1];
            assert w[j - 1] in w;
          } else {
            assert ([s[0]] + w)[i] == w[i - 1] && ([s[0]] + w)[j] == w[j - 1];
          }
        }
      } else {
        assert k !in s[1..] by {
          forall i | 0 <= i < |s[1..]| ensures s[1..][i] != k {
            assert s[1..][i] == s[i + 1];
          }
        }
      }
    }
  }

  /** Taking out a key that is absent changes nothing. */
  lemma {:induction false} WithoutAbsent<T(!new)>(s: seq<T>, k: T)
    requires k !in s
    ensures Without(s, k) == s
  {
    if s != [] {
      assert k !in s[1..] by {
        forall i | 0 <= i < |s[1..]| ensures s[1..][i] != k {
          assert s[1..][i] == s[i + 1];
        }
      }
      WithoutAbsent(s[1..], k);
      assert s == [s[0]] + s[1..];
    }
  }

  /** `r` is `s` with some elements left out, the rest in their order. */
  predicate IsSubsequence<T(==)>(r: seq<T>, s: seq<T>)
    decreases |s|
  {
    if r == [] then true
    else if s == [] then false
    else (r[0] == s[0] && IsSubsequence(r[1..], s[1..])) || IsSubsequence(r, s[1..])
  }

  /** `Without` keeps the relative order of the other keys. */
  lemma {:induction false} WithoutKeepsOrder<T(!new)>(s: seq<T>, k: T)
    ensures IsSubsequence(Without(s, k), s)
  {
    if s != [] {
      WithoutKeepsOrder(s[1..], k);
      var w := Without(s[1..], k);
      if s[0] != k {
        assert Without(s, k) == [s[0]] + w;
        assert ([s[0]] + w)[1..] == w;
      } else {
        assert Without(s, k) == w;
      }
    }
  }

  /** An insertion-ordered `dict` with keys `order` and entries `items`. */
  class Dict {
    var order: seq<Key>
    var items: map<Key, Value>

    ghost predicate Valid()
      reads this
    {
      && Distinct(order)
      && (forall k :: k in order <==> k in items)
      && |order| == |items|
    }

    /** `dict()`. */
    constructor ()
      ensures Valid() && order == [] && items == map[]
    {
      order, items := [], map[];
    }

    /** `d[k]`: the value, or `KeyError`. */
    method Get(k: Key) returns (r: Result<Value, PyError>)
      ensures k in items ==> r == Ok(items[k])
      ensures k !in items ==> r == Err(KeyError(k))
    {
      if k in items {
        return Ok(items[k]);
      }
      return Err(KeyError(k));
    }

    /** `k in d`. */
    method Contains(k: Key) returns (b: bool)
      ensures b <==> k in items
    {
      return k in items;
    }

    /** `d[k] = v`: a new key goes to the end, an existing one keeps its place. */
    method Set(k: Key, v: Value)
      requires Valid()
      modifies this
      ensures Valid()
      ensures items == old(items)[k := v]
      ensures order == if k in old(items) then old(order) else old(order) + [k]
    {
      if k !in items {
        order := order + [k];
        forall i, j | 0 <= i < j < |order| ensures order[i] != order[j] {
          if j == |order| - 1 {
            assert order[i] in old(order);
          }
        }
      }
      items := items[k := v];
    }

    /** `del d[k]`: the entry and its place in the order go, or `KeyError`. */
    method Delete(k: Key) returns (r: Result<(), PyError>)
      requires Valid()
      modifies this
      ensures Valid()
      ensures k in old(items) ==> r == Ok(()) && items == old(items) - {k} && order == Without(old(order), k)
      ensures k !in old(items) ==> r == Err(KeyError(k)) && items == old(items) && order == old(order)
    {
      if k !in items {
        return Err(KeyError(k));
      }
      WithoutDistinct(order, k);
      order := Without(order, k);
      items := items - {k};
      assert items.Keys == old(items).Keys - {k};
      return Ok(());
    }

    /** `len(d)`. */
    method Len() returns (n: nat)
      requires Valid()
      ensures n == |items| && n == |order|
    {
      return |order|;
    }
  }
}

/**
 * `TimedValueSet` of pytutils/sets.py: a set that also records, for each
 * member, the time it was last added. The clock is read once per `add`;
 * the readings are passed in as parameters.
 */
module Sets {
  import opened Wrappers

  /** The members of `items`, as a set. */
  function Members<T(!new)>(items: seq<T>): (r: set<T>)
    ensures forall x :: x in r <==> x in items
  {
    set i | 0 <= i < |items| :: items[i]
  }

  /** The time table after stamping `items[i]` with `times[i]` in order: a
      value added twice keeps its later time. */
  function Stamped<T(!new)>(m: map<T, real>, items: seq<T>, times: seq<real>): map<T, real>
    requires |times| == |items|
  {
    if items == [] then m
    else
      var n := |items| - 1;
      Stamped(m, items[..n], times[..n])[items[n] := times[n]]
  }

  /** Stamping adds exactly the stamped values to the table, each with the
      time of its last stamp, and leaves other entries alone. */
  lemma {:induction false} StampedEntries<T(!new)>(m: map<T, real>, items: seq<T>, times: seq<real>)
    requires |times| == |items|
    ensures Stamped(m, items, times).Keys == m.Keys + Members(items)
    ensures forall x :: x in m && x !in items ==> Stamped(m, items, times)[x] == m[x]
    ensures forall i :: 0 <= i < |items| && (forall j :: i < j < |items| ==> items[j] != items[i]) ==>
              Stamped(m, items, times)[items[i]] == times[i]
  {
    if items != [] {
      var n := |items| - 1;
      StampedEntries(m, items[..n], times[..n]);
      assert items == items[..n] + [items[n]];
      assert forall i :: 0 <= i < n ==> items[..n][i] == items[i] && times[..n][i] == times[i];
    }
  }

  class TimedValueSet<T(==,!new)> {
    var store: set<T>
    var addedAt: map<T, real>

    /** The time table has an entry for each member and nothing else. */
    ghost predicate Valid()
      reads this
    {
      addedAt.Keys == store
    }

    /** `TimedValueSet(seq)`: empty, then every value of `seq` added, the
        `i`-th at clock reading `times[i]`. */
    constructor (items: seq<T>, times: seq<real>)
      requires |times| == |items|
      ensures Valid()
      ensures store == Members(items) && addedAt == Stamped(map[], items, times)
    {
      store, addedAt := {}, map[];
      new;
      Update(items, times);
    }

    /** `value in s`. */
    function Contains(value: T): (r: bool)
      requires Valid()
      reads this
      ensures r <==> value in addedAt
    {
      value in store
    }

    /** `len(s)`: the number of members, which is the number of recorded times. */
    function Len(): (r: nat)
      requires Valid()
      reads this
      ensures r == |addedAt|
    {
      |store|
    }

    /** `iter(s)`: each member once, in no particular order. */
    method Iter() returns (xs: seq<T>)
      requires Valid()
      ensures Members(xs) == store && |xs| == |store|
    {
      xs := [];
      var rest := store;
      while rest != {}
        invariant rest <= store && Members(xs) == store - rest
        invariant |xs| + |rest| == |store|
      {
        var x :| x in rest;
        xs := xs + [x];
        rest := rest - {x};
      }
    }

    /** `add(value)`: the value joins the store and `now` is recorded for it,
        replacing any earlier time. */
    method Add(value: T, now: real)
      requires Valid()
      modifies this
      ensures Valid()
      ensures store == old(store) + {value} && addedAt == old(addedAt)[value := now]
    {
      store := store + {value};
      addedAt := addedAt[value := now];
    }

    /** `discard(value)`: the value leaves the store and the time table; an
        absent value changes nothing. */
    method Discard(value: T)
      requires Valid()
      modifies this
      ensures Valid()
      ensures store == old(store) - {value} && addedAt == old(addedAt) - {value}
      ensures value !in old(store) ==> store == old(store) && addedAt == old(addedAt)
    {
      store := store - {value};
      if value in addedAt {
        addedAt := addedAt - {value};
      }
    }

    /** `update(iterable)`: `add` for each value in order, the `i`-th at
        clock reading `times[i]`. */
    method Update(items: seq<T>, times: seq<real>)
      requires Valid() && |times| == |items|
      modifies this
      ensures Valid()
      ensures store == old(store) + Members(items)
      ensures addedAt == Stamped(old(addedAt), items, times)
    {
      var i := 0;
      while i < |items|
        invariant 0 <= i <= |items| && Valid()
        invariant store == old(store) + Members(items[..i])
        invariant addedAt == Stamped(old(addedAt), items[..i], times[..i])
      {
        assert items[..i + 1][..i] == items[..i] && times[..i + 1][..i] == times[..i];
        assert Members(items[..i + 1]) == Members(items[..i]) + {items[i]};
        Add(items[i], times[i]);
        i := i + 1;
      }
      assert items[..i] == items && times[..i] == times;
    }

    /** `added_at(value, default)`: the recorded time of a member, otherwise
        `default`. */
    function AddedAt(value: T, default: Option<real>): (r: Option<real>)
      requires Valid()
      reads this
      ensures value in store ==> r == Some(addedAt[value])
      ensures value !in store ==> r == default
    {
      if value in addedAt then Some(addedAt[value]) else default
    }
  }
}

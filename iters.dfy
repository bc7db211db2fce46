/**
 * The iterator helpers of pytutils/iters.py: running totals, advancing an
 * iterator, and dropping items whose hash was already seen. A generator's
 * output is modelled as the list it yields.
 */
module Iters {
  import opened Wrappers
  import opened PyValues
  import opened PyDict

  // ---------------------------------------------------------------------------
  // accumulate
  // ---------------------------------------------------------------------------

  /** The running totals of `xs` under `f`: the first item, then each total
      combined with the next item. */
  function Running<T>(xs: seq<T>, f: (T, T) -> T): (r: seq<T>)
    ensures |r| == |xs|
    ensures xs != [] ==> r[0] == xs[0]
  {
    if |xs| <= 1 then xs
    else
      var init := Running(xs[..|xs| - 1], f);
      init + [f(init[|init| - 1], xs[|xs| - 1])]
  }

  /** Each total after the first is `f(previous total, current item)`. */
  lemma {:induction false} RunningStep<T>(xs: seq<T>, f: (T, T) -> T)
    ensures forall i :: 0 < i < |xs| ==> Running(xs, f)[i] == f(Running(xs, f)[i - 1], xs[i])
  {
    if |xs| > 1 {
      var init := xs[..|xs| - 1];
      RunningStep(init, f);
      assert forall i :: 0 <= i < |init| ==> init[i] == xs[i];
      assert forall i :: 0 <= i < |init| ==> Running(xs, f)[i] == Running(init, f)[i];
    }
  }

  /** A sequence that starts with the first item and follows the step rule is
      the running totals: the rule determines them. */
  lemma {:induction false} RunningUnique<T>(xs: seq<T>, f: (T, T) -> T, r: seq<T>)
    requires |r| == |xs| && (xs != [] ==> r[0] == xs[0])
    requires forall i :: 0 < i < |xs| ==> r[i] == f(r[i - 1], xs[i])
    ensures r == Running(xs, f)
  {
    if |xs| > 1 {
      var n := |xs| - 1;
      RunningUnique(xs[..n], f, r[..n]);
      assert r == r[..n] + [r[n]];
    }
  }

  /** The totals of a prefix are the prefix of the totals. */
  lemma {:induction false} RunningPrefix<T>(xs: seq<T>, f: (T, T) -> T, n: nat)
    requires n <= |xs|
    ensures Running(xs[..n], f) == Running(xs, f)[..n]
  {
    RunningStep(xs, f);
    RunningUnique(xs[..n], f, Running(xs, f)[..n]);
  }

  /** `accumulate(iterable, func)`: the first item is yielded as the total,
      then each new total `func(total, element)`. Nothing for no items. */
  method Accumulate<T>(xs: seq<T>, f: (T, T) -> T) returns (out: seq<T>)
    ensures out == Running(xs, f)
  {
    if |xs| == 0 {
      return [];
    }
    var total := xs[0];
    out := [total];
    var i := 1;
    while i < |xs|
      invariant 1 <= i <= |xs|
      invariant out == Running(xs[..i], f) && total == out[i - 1]
    {
      assert xs[..i + 1][..i] == xs[..i];
      total := f(total, xs[i]);
      out := out + [total];
      i := i + 1;
    }
    assert xs[..i] == xs;
  }

  /** The first docstring example: running sums. */
  lemma RunningSums()
    ensures Running([1, 2, 3, 4, 5], (a: int, b: int) => a + b) == [1, 3, 6, 10, 15]
  {
    var f := (a: int, b: int) => a + b;
    RunningUnique([1, 2, 3, 4, 5], f, [1, 3, 6, 10, 15]);
  }

  /** The second docstring example: running products. */
  lemma RunningProducts()
    ensures Running([1, 2, 3, 4, 5], (a: int, b: int) => a * b) == [1, 2, 6, 24, 120]
  {
    var f := (a: int, b: int) => a * b;
    RunningUnique([1, 2, 3, 4, 5], f, [1, 2, 6, 24, 120]);
  }

  // ---------------------------------------------------------------------------
  // consume
  // ---------------------------------------------------------------------------

  /** A Python iterator over a list: the items and how many were taken. */
  class ListIterator<T> {
    const items: seq<T>
    var pos: nat

    ghost predicate Valid()
      reads this
    {
      pos <= |items|
    }

    constructor (items: seq<T>)
      ensures Valid() && this.items == items && pos == 0
    {
      this.items := items;
      pos := 0;
    }

    /** `next(it, None)`: the next item, or `None` once exhausted. */
    method Next() returns (r: Option<T>)
      requires Valid()
      modifies this
      ensures Valid()
      ensures old(pos) < |items| ==> r == Some(items[old(pos)]) && pos == old(pos) + 1
      ensures old(pos) == |items| ==> r == None && pos == old(pos)
    {
      if pos < |items| {
        r := Some(items[pos]);
        pos := pos + 1;
      } else {
        r := None;
      }
    }
  }

  /** `consume(iterator, n)`: with `n=None` the iterator is drained; otherwise
      it is advanced `n` items, or to its end if fewer remain. `islice`
      rejects a negative `n` with `ValueError` before taking anything. */
  method Consume<T>(it: ListIterator<T>, n: Option<int>) returns (r: Result<(), PyError>)
    requires it.Valid()
    modifies it
    ensures it.Valid()
    ensures n.None? ==> r == Ok(()) && it.pos == |it.items|
    ensures n.Some? && n.value < 0 ==> r == Err(ValueError) && it.pos == old(it.pos)
    ensures n.Some? && n.value >= 0 ==>
              r == Ok(()) && it.pos == old(it.pos) + Min(n.value, |it.items| - old(it.pos))
  {
    if n.Some? && n.value < 0 {
      return Err(ValueError);
    }
    var taken := 0;
    var more := true;
    while more && (n.None? || taken < n.value)
      invariant it.Valid()
      invariant it.pos == old(it.pos) + taken
      invariant !more ==> it.pos == |it.items|
      invariant n.Some? ==> taken <= n.value
      decreases |it.items| - it.pos, if more then 1 else 0
    {
      var x := it.Next();
      if x.Some? {
        taken := taken + 1;
      } else {
        more := false;
      }
    }
    return Ok(());
  }

  function Min(a: int, b: int): (m: int)
    ensures m <= a && m <= b && (m == a || m == b)
  {
    if a < b then a else b
  }

  // ---------------------------------------------------------------------------
  // dedupe_iter
  // ---------------------------------------------------------------------------

  /** The hashes of the items of `xs`. */
  ghost function Hashes<T, H>(xs: seq<T>, hash: T -> H): set<H>
  {
    set i | 0 <= i < |xs| :: hash(xs[i])
  }

  /** The items of `xs` whose hash is neither in `seen` nor the hash of an
      earlier item, in their order. */
  function DedupeFrom<T, H(==)>(xs: seq<T>, hash: T -> H, seen: set<H>): seq<T>
  {
    if xs == [] then []
    else if hash(xs[0]) in seen then DedupeFrom(xs[1..], hash, seen)
    else [xs[0]] + DedupeFrom(xs[1..], hash, seen + {hash(xs[0])})
  }

  /** `dedupe_iter(iterator, hashfunc)`: each item is yielded unless its hash
      is already in the `done` set, which every yielded item's hash joins. */
  method DedupeIter<T, H(==)>(xs: seq<T>, hash: T -> H) returns (out: seq<T>)
    ensures out == DedupeFrom(xs, hash, {})
  {
    var done: set<H> := {};
    out := [];
    var i := 0;
    while i < |xs|
      invariant 0 <= i <= |xs|
      invariant out + DedupeFrom(xs[i..], hash, done) == DedupeFrom(xs, hash, {})
    {
      assert xs[i..][1..] == xs[i + 1..];
      var hashed := hash(xs[i]);
      if hashed !in done {
        done := done + {hashed};
        out := out + [xs[i]];
      }
      i := i + 1;
    }
  }

  /** The output keeps items of the input, in input order. */
  lemma {:induction false} DedupeIsSubsequence<T, H>(xs: seq<T>, hash: T -> H, seen: set<H>)
    ensures IsSubsequence(DedupeFrom(xs, hash, seen), xs)
  {
    if xs != [] {
      var rest := xs[1..];
      if hash(xs[0]) in seen {
        DedupeIsSubsequence(rest, hash, seen);
      } else {
        DedupeIsSubsequence(rest, hash, seen + {hash(xs[0])});
        var r := [xs[0]] + DedupeFrom(rest, hash, seen + {hash(xs[0])});
        assert r[1..] == DedupeFrom(rest, hash, seen + {hash(xs[0])});
      }
    }
  }

  /** No two items of the output share a hash, nor does any output item share
      one with `seen`. */
  lemma {:induction false} DedupeHashesDistinct<T, H>(xs: seq<T>, hash: T -> H, seen: set<H>)
    ensures forall i :: 0 <= i < |DedupeFrom(xs, hash, seen)| ==> hash(DedupeFrom(xs, hash, seen)[i]) !in seen
    ensures forall i, j :: 0 <= i < j < |DedupeFrom(xs, hash, seen)| ==>
              hash(DedupeFrom(xs, hash, seen)[i]) != hash(DedupeFrom(xs, hash, seen)[j])
  {
    if xs != [] {
      var rest := xs[1..];
      if hash(xs[0]) in seen {
        DedupeHashesDistinct(rest, hash, seen);
      } else {
        var seen' := seen + {hash(xs[0])};
        DedupeHashesDistinct(rest, hash, seen');
        var tail := DedupeFrom(rest, hash, seen');
        var r := [xs[0]] + tail;
        assert forall i :: 0 < i < |r| ==> r[i] == tail[i - 1];
      }
    }
  }

  /** Together with `seen`, the output's hashes are exactly the input's. */
  lemma {:induction false} DedupeHashesCover<T, H>(xs: seq<T>, hash: T -> H, seen: set<H>)
    ensures Hashes(DedupeFrom(xs, hash, seen), hash) + seen == Hashes(xs, hash) + seen
  {
    if xs != [] {
      var rest := xs[1..];
      assert Hashes(xs, hash) == {hash(xs[0])} + Hashes(rest, hash) by {
        assert forall i :: 0 < i < |xs| ==> xs[i] == rest[i - 1];
        assert forall i :: 0 <= i < |rest| ==> rest[i] == xs[i + 1];
      }
      if hash(xs[0]) in seen {
        DedupeHashesCover(rest, hash, seen);
      } else {
        var seen' := seen + {hash(xs[0])};
        DedupeHashesCover(rest, hash, seen');
        var tail := DedupeFrom(rest, hash, seen');
        var r := [xs[0]] + tail;
        assert Hashes(r, hash) == {hash(xs[0])} + Hashes(tail, hash) by {
          assert forall i :: 0 < i < |r| ==> r[i] == tail[i - 1];
          assert forall i :: 0 <= i < |tail| ==> tail[i] == r[i + 1];
        }
      }
    }
  }

  /** First occurrence wins: an item whose hash is not in `seen` and differs
      from every earlier item's hash is in the output. */
  lemma {:induction false} DedupeKeepsFirst<T, H>(xs: seq<T>, hash: T -> H, seen: set<H>, k: nat)
    requires k < |xs| && hash(xs[k]) !in seen
    requires forall j :: 0 <= j < k ==> hash(xs[j]) != hash(xs[k])
    ensures xs[k] in DedupeFrom(xs, hash, seen)
  {
    if k > 0 {
      var rest := xs[1..];
      assert rest[k - 1] == xs[k];
      var seen' := if hash(xs[0]) in seen then seen else seen + {hash(xs[0])};
      DedupeKeepsFirst(rest, hash, seen', k - 1);
    }
  }

  /** Every output item is the first item of the input with its hash. */
  lemma {:induction false} DedupeOnlyFirst<T, H>(xs: seq<T>, hash: T -> H, seen: set<H>, y: T)
    requires y in DedupeFrom(xs, hash, seen)
    ensures exists k :: 0 <= k < |xs| && xs[k] == y && hash(y) !in seen &&
                        forall j :: 0 <= j < k ==> hash(xs[j]) != hash(y)
  {
    var rest := xs[1..];
    var seen' := if hash(xs[0]) in seen then seen else seen + {hash(xs[0])};
    if hash(xs[0]) !in seen && y == xs[0] {
      assert xs[0] == y;
    } else {
      assert y in DedupeFrom(rest, hash, seen');
      DedupeOnlyFirst(rest, hash, seen', y);
      var k :| 0 <= k < |rest| && rest[k] == y && hash(y) !in seen' &&
               forall j :: 0 <= j < k ==> hash(rest[j]) != hash(y);
      assert xs[k + 1] == y;
      forall j | 0 <= j < k + 1 ensures hash(xs[j]) != hash(y) {
        if j > 0 {
          assert xs[j] == rest[j - 1];
        }
      }
    }
  }
}

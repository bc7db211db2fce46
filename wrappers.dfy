/** Option and Result, used wherever the Python helpers return None or raise. */
module Wrappers {
  datatype Option<+T> = None | Some(value: T)

  datatype Result<+T, +E> = Ok(value: T) | Err(error: E)
}

/** Python values as the helpers see them. */
module PyValues {
  /** A string, a bool, a dict, or any other object; the last two are carried
      by their `str()` form, which is all the helpers ever look at. */
  datatype Value = Str(s: string) | Bool(b: bool) | DictObj(text: string) | Obj(text: string)

  /** Python's `str(v)`. */
  function ToStr(v: Value): string
  {
    match v
    case Str(s) => s
    case Bool(b) => if b then "True" else "False"
    case DictObj(t) => t
    case Obj(t) => t
  }

  /** A dict key: a string, or any other hashable object (an int stands for it). */
  datatype Key = SKey(s: string) | OKey(id: int)

  /** The exceptions the helpers let escape. */
  datatype PyError = KeyError(key: Key) | TypeError | AttributeError(name: string) | ValueError

  /** An ASCII word character, `[A-Za-z0-9_]`: what `\w` matches in the
      template scanner, and the key alphabet `[A-Za-z_0-9]` of env files. */
  predicate IsWordChar(c: char)
  {
    'a' <= c <= 'z' || 'A' <= c <= 'Z' || '0' <= c <= '9' || c == '_'
  }

  /** Length of the run of word characters at the start of `s`: how far a
      greedy `\w+` or `[A-Za-z_0-9]+` reaches. */
  function WordRun(s: string): (n: nat)
    ensures n <= |s|
  {
    if s != [] && IsWordChar(s[0]) then 1 + WordRun(s[1..]) else 0
  }

  /** The run is maximal: word characters up to its end, none just after. */
  lemma {:induction false} WordRunIsMaximal(s: string)
    ensures forall i :: 0 <= i < WordRun(s) ==> IsWordChar(s[i])
    ensures WordRun(s) < |s| ==> !IsWordChar(s[WordRun(s)])
  {
    if s != [] && IsWordChar(s[0]) {
      WordRunIsMaximal(s[1..]);
      assert forall i :: 1 <= i < WordRun(s) ==> s[i] == s[1..][i - 1];
    }
  }

  function Digit(d: nat): char
    requires d < 10
  {
    ('0' as int + d) as char
  }

  /** The number a string of decimal digits denotes. */
  function DigitsValue(s: string): nat
    requires forall i :: 0 <= i < |s| ==> '0' <= s[i] <= '9'
  {
    if s == [] then 0 else 10 * DigitsValue(s[..|s| - 1]) + (s[|s| - 1] as int - '0' as int)
  }

  /** Python's `str(n)` for a non-negative int: decimal digits denoting `n`,
      with no leading zero. */
  function NatToStr(n: nat): (r: string)
    ensures r != [] && forall i :: 0 <= i < |r| ==> '0' <= r[i] <= '9'
    ensures DigitsValue(r) == n
    ensures |r| > 1 ==> r[0] != '0'
  {
    if n < 10 then [Digit(n)]
    else
      var r := NatToStr(n / 10) + [Digit(n % 10)];
      assert r[..|r| - 1] == NatToStr(n / 10);
      r
  }

  /** Different numbers have different decimal forms, so `key + str(n)` names
      a different key for every `n`. */
  lemma NatToStrInjective(a: nat, b: nat)
    requires NatToStr(a) == NatToStr(b)
    ensures a == b
  {
  }
}

/** Set facts used by several termination and stall arguments. */
module SetFacts {
  lemma SubsetCard<T>(a: set<T>, b: set<T>)
    requires a <= b
    ensures |a| <= |b|
  {
    if a != {} {
      var x :| x in a;
      SubsetCard(a - {x}, b - {x});
    }
  }

  lemma ProperSubsetWitness<T>(a: set<T>, b: set<T>)
    requires a < b
    ensures exists x :: x in b && x !in a
  {
    assert !(b <= a);
  }

  lemma ProperSubsetCard<T>(a: set<T>, b: set<T>)
    requires a < b
    ensures |a| < |b|
  {
    ProperSubsetWitness(a, b);
    var x :| x in b && x !in a;
    SubsetCard(a, b - {x});
  }

  lemma ProperSubsetMinus<T>(a: set<T>, b: set<T>, c: set<T>)
    requires c <= a < b
    ensures a - c < b - c
  {
    ProperSubsetWitness(a, b);
    var x :| x in b && x !in a;
    assert x in (b - c) - (a - c);
  }

  lemma MapCard<K, V>(m: map<K, V>)
    ensures |m| == |m.Keys|
  {
  }

  lemma SameSizeKeys<K, V, W>(a: map<K, V>, b: map<K, W>)
    requires a.Keys <= b.Keys && |a| == |b|
    ensures a.Keys == b.Keys
  {
    if a.Keys != b.Keys {
      ProperSubsetCard(a.Keys, b.Keys);
      MapCard(a);
      MapCard(b);
    }
  }
}

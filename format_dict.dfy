/**
 * `format_dict_recursively` (pytutils/mappings.py): each single-line string
 * value of a dict is a template whose `{name}` placeholders name other keys of
 * the same dict; templates are filled in rounds, a key as soon as every name
 * it mentions has a value, until everything is resolved or a round stalls.
 */
module FormatDict {
  import opened Wrappers
  import opened PyValues
  import SetFacts

  // ---------------------------------------------------------------------------
  // Placeholders: the tokens that `re.findall(r'\{(\w+)\}', s)` finds.
  // ---------------------------------------------------------------------------

  /** A template cut into literal characters and `{name}` placeholders. */
  datatype Piece = Lit(c: char) | Ref(name: string)

  /** Scans left to right, like the regular expression: at a `{` followed by a
      non-empty run of word characters and a `}` a placeholder is taken,
      anywhere else one literal character. */
  function Scan(s: string): seq<Piece>
    decreases |s|
  {
    if s == [] then []
    else
      var n := if s[0] == '{' then WordRun(s[1..]) else 0;
      if 0 < n && n + 1 < |s| && s[n + 1] == '}' then [Ref(s[1..n + 1])] + Scan(s[n + 2..])
      else [Lit(s[0])] + Scan(s[1..])
  }

  /** Writes the pieces back out as text. */
  function Unscan(ps: seq<Piece>): string
  {
    if ps == [] then [] else PieceText(ps[0]) + Unscan(ps[1..])
  }

  function PieceText(p: Piece): string
  {
    match p
    case Lit(c) => [c]
    case Ref(n) => "{" + n + "}"
  }

  lemma UnscanCons(p: Piece, ps: seq<Piece>)
    ensures Unscan([p] + ps) == PieceText(p) + Unscan(ps)
  {
    assert ([p] + ps)[1..] == ps;
  }

  /** The placeholder names of `ps`, in order, repeats included. */
  function RefNames(ps: seq<Piece>): seq<string>
  {
    if ps == [] then []
    else (if ps[0].Ref? then [ps[0].name] else []) + RefNames(ps[1..])
  }

  /** The dependency list the source records for a template: `deps[k]`. */
  function Deps(t: string): seq<string>
  {
    RefNames(Scan(t))
  }

  /** Every name in `names` is a key of `keys`. */
  predicate Covers(names: seq<string>, keys: set<string>)
  {
    forall i :: 0 <= i < |names| ==> names[i] in keys
  }

  /** The text of a token at the start of `s` is `s` up to its closing brace. */
  lemma TokenText(s: string, n: nat)
    requires n + 1 < |s| && s[0] == '{' && s[n + 1] == '}'
    ensures s == PieceText(Ref(s[1..n + 1])) + s[n + 2..]
  {
    assert s == s[..1] + s[1..n + 1] + s[n + 1..n + 2] + s[n + 2..];
  }

  lemma ScanRoundTripRef(s: string, n: nat)
    requires s != [] && s[0] == '{' && n == WordRun(s[1..]) && 0 < n && n + 1 < |s| && s[n + 1] == '}'
    requires Unscan(Scan(s[n + 2..])) == s[n + 2..]
    ensures Unscan(Scan(s)) == s
  {
    var name, rest := s[1..n + 1], s[n + 2..];
    assert Scan(s) == [Ref(name)] + Scan(rest);
    UnscanCons(Ref(name), Scan(rest));
    TokenText(s, n);
  }

  lemma ScanRoundTripLit(s: string)
    requires s != []
    requires !(s[0] == '{' && 0 < WordRun(s[1..]) && WordRun(s[1..]) + 1 < |s| && s[WordRun(s[1..]) + 1] == '}')
    requires Unscan(Scan(s[1..])) == s[1..]
    ensures Unscan(Scan(s)) == s
  {
    assert Scan(s) == [Lit(s[0])] + Scan(s[1..]);
    UnscanCons(Lit(s[0]), Scan(s[1..]));
    assert s == [s[0]] + s[1..];
  }

  /** Scanning loses nothing: writing the pieces back gives the template. */
  lemma {:induction false} ScanRoundTrip(s: string)
    ensures Unscan(Scan(s)) == s
    decreases |s|
  {
    if s != [] {
      var n := if s[0] == '{' then WordRun(s[1..]) else 0;
      if 0 < n && n + 1 < |s| && s[n + 1] == '}' {
        ScanRoundTrip(s[n + 2..]);
        ScanRoundTripRef(s, n);
      } else {
        ScanRoundTrip(s[1..]);
        ScanRoundTripLit(s);
      }
    }
  }

  /** Every dependency is a non-empty run of word characters, as `\w+` demands. */
  lemma {:induction false} DepsAreWords(s: string)
    ensures forall i :: 0 <= i < |Deps(s)| ==> Deps(s)[i] != [] && forall j :: 0 <= j < |Deps(s)[i]| ==> IsWordChar(Deps(s)[i][j])
    decreases |s|
  {
    if s != [] {
      var n := if s[0] == '{' then WordRun(s[1..]) else 0;
      if 0 < n && n + 1 < |s| && s[n + 1] == '}' {
        DepsAreWords(s[n + 2..]);
        WordRunIsMaximal(s[1..]);
        assert Scan(s) == [Ref(s[1..n + 1])] + Scan(s[n + 2..]);
        assert Deps(s) == [s[1..n + 1]] + Deps(s[n + 2..]);
      } else {
        DepsAreWords(s[1..]);
        assert Scan(s) == [Lit(s[0])] + Scan(s[1..]);
        assert Deps(s) == Deps(s[1..]);
      }
    }
  }

  // ---------------------------------------------------------------------------
  // Substitution: `template.format(**ret)` restricted to `{name}` tokens.
  // ---------------------------------------------------------------------------

  lemma CoversTail(ps: seq<Piece>, keys: set<string>)
    requires ps != [] && Covers(RefNames(ps), keys)
    ensures Covers(RefNames(ps[1..]), keys)
    ensures ps[0].Ref? ==> ps[0].name in keys
  {
    var head := if ps[0].Ref? then [ps[0].name] else [];
    assert RefNames(ps) == head + RefNames(ps[1..]);
    forall i | 0 <= i < |RefNames(ps[1..])|
      ensures RefNames(ps[1..])[i] in keys
    {
      assert RefNames(ps[1..])[i] == RefNames(ps)[|head| + i];
    }
    if ps[0].Ref? {
      assert RefNames(ps)[0] == ps[0].name;
    }
  }

  /** Each placeholder replaced by the `str()` of its value; literal text kept.
      The substituted text is not scanned again. */
  function Render(ps: seq<Piece>, env: map<string, Value>): string
    requires Covers(RefNames(ps), env.Keys)
  {
    if ps == [] then []
    else
      CoversTail(ps, env.Keys);
      (match ps[0] case Lit(c) => [c] case Ref(n) => ToStr(env[n])) + Render(ps[1..], env)
  }

  /** `t.format(**env)` for a template whose placeholders are all `{name}`
      tokens with names in `env`. */
  function Format(t: string, env: map<string, Value>): string
    requires Covers(Deps(t), env.Keys)
  {
    Render(Scan(t), env)
  }

  /** Two environments that agree on every name of `names`. */
  predicate AgreeOn(names: seq<string>, e1: map<string, Value>, e2: map<string, Value>)
    requires Covers(names, e1.Keys) && Covers(names, e2.Keys)
  {
    forall i :: 0 <= i < |names| ==> e1[names[i]] == e2[names[i]]
  }

  lemma {:induction false} RenderFrame(ps: seq<Piece>, e1: map<string, Value>, e2: map<string, Value>)
    requires Covers(RefNames(ps), e1.Keys) && Covers(RefNames(ps), e2.Keys)
    requires AgreeOn(RefNames(ps), e1, e2)
    ensures Render(ps, e1) == Render(ps, e2)
  {
    if ps != [] {
      CoversTail(ps, e1.Keys);
      CoversTail(ps, e2.Keys);
      var head := if ps[0].Ref? then [ps[0].name] else [];
      assert RefNames(ps) == head + RefNames(ps[1..]);
      forall i | 0 <= i < |RefNames(ps[1..])|
        ensures e1[RefNames(ps[1..])[i]] == e2[RefNames(ps[1..])[i]]
      {
        assert RefNames(ps[1..])[i] == RefNames(ps)[|head| + i];
      }
      if ps[0].Ref? {
        assert RefNames(ps)[0] == ps[0].name;
      }
      RenderFrame(ps[1..], e1, e2);
    }
  }

  /** What a template formats to depends only on the values of the names it mentions. */
  lemma FormatFrame(t: string, e1: map<string, Value>, e2: map<string, Value>)
    requires Covers(Deps(t), e1.Keys) && Covers(Deps(t), e2.Keys)
    requires AgreeOn(Deps(t), e1, e2)
    ensures Format(t, e1) == Format(t, e2)
  {
    RenderFrame(Scan(t), e1, e2);
  }

  lemma {:induction false} RenderLiterals(ps: seq<Piece>, env: map<string, Value>)
    requires RefNames(ps) == []
    ensures Render(ps, env) == Unscan(ps)
  {
    if ps != [] {
      assert ps[0].Lit?;
      RenderLiterals(ps[1..], env);
    }
  }

  /** A template without placeholders formats to itself. */
  lemma FormatNoPlaceholders(t: string, env: map<string, Value>)
    requires Deps(t) == []
    ensures Format(t, env) == t
  {
    RenderLiterals(Scan(t), env);
    ScanRoundTrip(t);
  }

  // ---------------------------------------------------------------------------
  // The resolution, specified as a least fixpoint.
  // ---------------------------------------------------------------------------

  /** The values the source scans for placeholders: strings without a newline.
      Everything else is copied to the result as it is. */
  predicate IsTemplate(v: Value)
  {
    v.Str? && '\n' !in v.s
  }

  /** The `conversions` lookup applied to a freshly formatted string. */
  function Convert(s: string, conversions: map<string, Value>): Value
  {
    if s in conversions then conversions[s] else Str(s)
  }

  const DefaultConversions: map<string, Value> := map["True" := Bool(true), "False" := Bool(false)]

  /** Key `k` is a template all of whose names are in `done`. */
  predicate Ready(m: map<string, Value>, done: set<string>, k: string)
  {
    k in m && IsTemplate(m[k]) && Covers(Deps(m[k].s), done)
  }

  /** The keys copied straight through. */
  function Base(m: map<string, Value>): set<string>
  {
    set k | k in m && !IsTemplate(m[k])
  }

  /** One round in which only what was ready at its start is resolved. */
  function Step(m: map<string, Value>, done: set<string>): set<string>
  {
    done + set k | k in m && Ready(m, done, k)
  }

  function ClosureFrom(m: map<string, Value>, done: set<string>): set<string>
    requires done <= m.Keys
    decreases |m.Keys - done|
  {
    var next := Step(m, done);
    if next == done then done
    else
      SetFacts.ProperSubsetCard(m.Keys - next, m.Keys - done);
      ClosureFrom(m, next)
  }

  /** The keys that can be resolved at all: those with no placeholder chain
      leading to a missing key or around a cycle. */
  function Closure(m: map<string, Value>): set<string>
  {
    ClosureFrom(m, Base(m))
  }

  /** A set closed under resolution: nothing outside it is ready. */
  ghost predicate Closed(m: map<string, Value>, done: set<string>)
  {
    forall k :: Ready(m, done, k) ==> k in done
  }

  lemma {:induction false} ClosureFromIsFixpoint(m: map<string, Value>, done: set<string>)
    requires done <= m.Keys
    ensures done <= ClosureFrom(m, done) <= m.Keys
    ensures Closed(m, ClosureFrom(m, done))
    decreases |m.Keys - done|
  {
    var next := Step(m, done);
    if next != done {
      SetFacts.ProperSubsetCard(m.Keys - next, m.Keys - done);
      ClosureFromIsFixpoint(m, next);
    } else {
      forall k | Ready(m, done, k) ensures k in done {
        assert k in next;
      }
    }
  }

  lemma {:induction false} ClosureFromIsLeast(m: map<string, Value>, done: set<string>, t: set<string>)
    requires done <= m.Keys && done <= t && Closed(m, t)
    ensures ClosureFrom(m, done) <= t
    decreases |m.Keys - done|
  {
    var next := Step(m, done);
    forall k | k in next ensures k in t {
      if k !in done {
        assert Ready(m, done, k);
        assert Ready(m, t, k);
      }
    }
    if next != done {
      SetFacts.ProperSubsetCard(m.Keys - next, m.Keys - done);
      ClosureFromIsLeast(m, next, t);
    }
  }

  /** Closure holds every copied-through key and is closed under resolution. */
  lemma ClosureIsClosed(m: map<string, Value>)
    ensures Base(m) <= Closure(m) <= m.Keys && Closed(m, Closure(m))
  {
    ClosureFromIsFixpoint(m, Base(m));
  }

  /** ... and it is the least such set. */
  lemma ClosureIsLeast(m: map<string, Value>, t: set<string>)
    requires Base(m) <= t && Closed(m, t)
    ensures Closure(m) <= t
  {
    ClosureFromIsLeast(m, Base(m), t);
  }

  /** What key `k` of the result must hold: a copied value unchanged, or a
      template whose names are all resolved, formatted and then converted. */
  predicate ResolvedAt(m: map<string, Value>, ret: map<string, Value>, conversions: map<string, Value>, k: string)
    requires k in m && k in ret
  {
    if IsTemplate(m[k]) then
      Covers(Deps(m[k].s), ret.Keys) && ret[k] == Convert(Format(m[k].s, ret), conversions)
    else
      ret[k] == m[k]
  }

  /** Every key of `ret` is resolved. */
  predicate AllResolved(m: map<string, Value>, ret: map<string, Value>, conversions: map<string, Value>)
  {
    ret.Keys <= m.Keys && forall k {:trigger ret[k]} :: k in ret ==> ResolvedAt(m, ret, conversions, k)
  }

  /** The error the source raises: `ValueError` naming one unresolved key and
      those of its names that are missing from the result. */
  datatype Unresolvable = Unresolvable(key: string, missing: seq<string>)

  /** `[x for x in names if x not in done]`. */
  function MissingNames(names: seq<string>, done: set<string>): (r: seq<string>)
    ensures forall i :: 0 <= i < |r| ==> r[i] !in done && r[i] in names
    ensures forall i :: 0 <= i < |names| && names[i] !in done ==> names[i] in r
    ensures r == [] <==> Covers(names, done)
  {
    if names == [] then []
    else
      var rest := MissingNames(names[1..], done);
      assert forall i :: 1 <= i < |names| ==> names[i] == names[1..][i - 1];
      if names[0] in done then rest else [names[0]] + rest
  }

  lemma ResolvedAtExtend(m: map<string, Value>, ret: map<string, Value>, conversions: map<string, Value>, j: string, k: string, v: Value)
    requires k in m && k in ret && j !in ret && ResolvedAt(m, ret, conversions, k)
    ensures ResolvedAt(m, ret[j := v], conversions, k)
  {
    if IsTemplate(m[k]) {
      FormatFrame(m[k].s, ret, ret[j := v]);
    }
  }

  lemma ResolvedAtRestrict(m: map<string, Value>, big: map<string, Value>, small: map<string, Value>,
                           conversions: map<string, Value>, k: string)
    requires k in m && k in small && small.Keys <= big.Keys
    requires forall j :: j in small ==> big[j] == small[j]
    requires ResolvedAt(m, small, conversions, k)
    ensures ResolvedAt(m, big, conversions, k)
  {
    if IsTemplate(m[k]) {
      FormatFrame(m[k].s, small, big);
    }
  }

  lemma AddResolved(m: map<string, Value>, ret: map<string, Value>, conversions: map<string, Value>, k: string)
    requires AllResolved(m, ret, conversions) && k !in ret && Ready(m, ret.Keys, k)
    ensures AllResolved(m, ret[k := Convert(Format(m[k].s, ret), conversions)], conversions)
  {
    var v := Convert(Format(m[k].s, ret), conversions);
    forall j | j in ret ensures ResolvedAt(m, ret[k := v], conversions, j) {
      ResolvedAtExtend(m, ret, conversions, k, j, v);
    }
    FormatFrame(m[k].s, ret, ret[k := v]);
  }

  lemma ReadyInClosure(m: map<string, Value>, done: set<string>, k: string)
    requires done <= Closure(m) && Ready(m, done, k)
    ensures k in Closure(m)
  {
    ClosureIsClosed(m);
    assert Ready(m, Closure(m), k);
  }

  /** The `deps` dict the source builds: the dependency list of every template key. */
  predicate DepsTable(m: map<string, Value>, deps: map<string, seq<string>>)
  {
    deps.Keys == m.Keys - Base(m) && forall k {:trigger deps[k]} :: k in deps ==> deps[k] == Deps(m[k].s)
  }

  /** The body of the `for k in keys` loop: key `k` is skipped while one of
      its names is missing from `ret`, else formatted and converted. */
  method VisitKey(mapping: map<string, Value>, deps: map<string, seq<string>>, ret: map<string, Value>,
                  conversions: map<string, Value>, k: string)
    returns (next: map<string, Value>)
    requires DepsTable(mapping, deps) && k in deps && k !in ret
    requires AllResolved(mapping, ret, conversions) && ret.Keys <= Closure(mapping)
    ensures next.Keys == if Ready(mapping, ret.Keys, k) then ret.Keys + {k} else ret.Keys
    ensures forall j :: j in ret ==> next[j] == ret[j]
    ensures AllResolved(mapping, next, conversions) && next.Keys <= Closure(mapping)
  {
    // Some dependency of `k` is not resolved yet: skip `k` this round.
    if exists i :: 0 <= i < |deps[k]| && deps[k][i] !in ret {
      return ret;
    }
    assert Ready(mapping, ret.Keys, k);
    ReadyInClosure(mapping, ret.Keys, k);
    var formatted := Format(mapping[k].s, ret);
    AddResolved(mapping, ret, conversions, k);
    next := ret[k := Convert(formatted, conversions)];
  }

  /** One pass of the `for k in keys` loop over the keys still unresolved at
      the start of a round, in an arbitrary order. Returns the grown result and
      the key visited last. */
  method ResolveRound(mapping: map<string, Value>, deps: map<string, seq<string>>, start: map<string, Value>,
                      conversions: map<string, Value>)
    returns (ret: map<string, Value>, last: string)
    requires DepsTable(mapping, deps)
    requires Base(mapping) <= start.Keys <= Closure(mapping)
    requires AllResolved(mapping, start, conversions)
    requires start.Keys != mapping.Keys
    ensures start.Keys <= ret.Keys <= Closure(mapping)
    ensures forall j :: j in start ==> ret[j] == start[j]
    ensures AllResolved(mapping, ret, conversions)
    ensures |ret| == |start| ==> ret == start && Closed(mapping, start.Keys)
    ensures |ret| != |start| ==> start.Keys < ret.Keys
    ensures last in mapping && last !in start
  {
    ghost var closure := Closure(mapping);
    var keys := mapping.Keys - start.Keys;
    assert keys != {} by {
      SetFacts.ProperSubsetWitness(start.Keys, mapping.Keys);
      var x :| x in mapping.Keys && x !in start.Keys;
      assert x in keys;
    }
    ret := start;
    var rest := keys;
    last := "";
    while rest != {}
      invariant rest <= keys
      invariant start.Keys <= ret.Keys && forall j :: j in rest ==> j !in ret
      invariant forall j :: j in start ==> ret[j] == start[j]
      invariant ret.Keys <= closure
      invariant AllResolved(mapping, ret, conversions)
      invariant ret.Keys == start.Keys ==> forall j :: j in keys && j !in rest ==> !Ready(mapping, start.Keys, j)
      invariant rest != keys ==> last in keys
      decreases rest
    {
      var k :| k in rest;
      rest := rest - {k};
      last := k;
      ret := VisitKey(mapping, deps, ret, conversions, k);
    }
    RoundEnd(mapping, start, ret);
  }

  /** After a round: either nothing changed and nothing outside `start` was
      ready, or the result grew. */
  lemma RoundEnd(mapping: map<string, Value>, start: map<string, Value>, ret: map<string, Value>)
    requires start.Keys <= ret.Keys && forall j :: j in start ==> ret[j] == start[j]
    requires ret.Keys == start.Keys ==> forall j :: j in mapping.Keys - start.Keys ==> !Ready(mapping, start.Keys, j)
    ensures |ret| == |start| ==> ret == start && Closed(mapping, start.Keys)
    ensures |ret| != |start| ==> start.Keys < ret.Keys
  {
    if ret.Keys != start.Keys {
      SetFacts.ProperSubsetCard(start.Keys, ret.Keys);
      SetFacts.MapCard(start);
      SetFacts.MapCard(ret);
    } else {
      assert ret == start;
      forall j | Ready(mapping, start.Keys, j) ensures j in start.Keys {
        assert j in mapping.Keys;
      }
    }
  }

  /** The result the source returns when it does not raise: the resolvable
      keys resolved, and, unless stripping, every other key with its original
      value. */
  ghost predicate ResolvesTo(m: map<string, Value>, strip: bool, conversions: map<string, Value>, ret: map<string, Value>)
  {
    && ret.Keys == (if strip then Closure(m) else m.Keys)
    && (forall k :: k in ret && k in Closure(m) ==> k in m && ResolvedAt(m, ret, conversions, k))
    && (forall k :: k in ret && k !in Closure(m) ==> k in m && ret[k] == m[k])
  }

  /** The error the source raises: an unresolvable template key and exactly
      those of its names that never get a value. */
  ghost predicate FailsWith(m: map<string, Value>, e: Unresolvable)
  {
    && e.key in m && e.key !in Closure(m) && IsTemplate(m[e.key])
    && e.missing == MissingNames(Deps(m[e.key].s), Closure(m)) && e.missing != []
  }

  /** Lines 220-229: record the dependency list of every template and copy
      everything else into the result. */
  method CollectDeps(mapping: map<string, Value>) returns (ret: map<string, Value>, deps: map<string, seq<string>>)
    ensures ret.Keys == Base(mapping) && forall k :: k in ret ==> ret[k] == mapping[k]
    ensures DepsTable(mapping, deps)
  {
    ret, deps := map[], map[];
    var items := mapping.Keys;
    while items != {}
      invariant items <= mapping.Keys
      invariant ret.Keys == Base(mapping) - items
      invariant deps.Keys == mapping.Keys - Base(mapping) - items
      invariant forall k :: k in deps ==> deps[k] == Deps(mapping[k].s)
      invariant forall k :: k in ret ==> ret[k] == mapping[k]
      decreases items
    {
      var k :| k in items;
      var v := mapping[k];
      if v.Str? && '\n' !in v.s {
        deps := deps[k := Deps(v.s)];
      } else {
        ret := ret[k := v];
      }
      items := items - {k};
    }
  }

  /** A stalled round has reached the closure. */
  lemma StallIsClosure(m: map<string, Value>, done: set<string>)
    requires Base(m) <= done <= Closure(m) && Closed(m, done)
    ensures done == Closure(m)
  {
    ClosureIsLeast(m, done);
  }

  lemma ResolvedIsOutcome(m: map<string, Value>, strip: bool, conversions: map<string, Value>, ret: map<string, Value>)
    requires AllResolved(m, ret, conversions) && ret.Keys == Closure(m)
    requires !strip ==> ret.Keys == m.Keys
    ensures ResolvesTo(m, strip, conversions, ret)
  {
  }

  lemma BackfillIsOutcome(m: map<string, Value>, conversions: map<string, Value>, ret: map<string, Value>)
    requires AllResolved(m, ret, conversions) && ret.Keys == Closure(m)
    ensures ResolvesTo(m, false, conversions, ret + map k | k in m.Keys - ret.Keys :: m[k])
  {
    var filled := ret + map k | k in m.Keys - ret.Keys :: m[k];
    forall k | k in filled && k in Closure(m) ensures ResolvedAt(m, filled, conversions, k) {
      ResolvedAtRestrict(m, filled, ret, conversions, k);
    }
  }

  lemma FailureIsOutcome(m: map<string, Value>, deps: map<string, seq<string>>, done: set<string>, last: string)
    requires DepsTable(m, deps) && Base(m) <= done == Closure(m) && last in m && last !in done
    ensures FailsWith(m, Unresolvable(last, MissingNames(deps[last], done)))
  {
    ClosureIsClosed(m);
    assert !Ready(m, done, last);
  }

  /** Lines 246-255: a round made no progress, so `ret` holds exactly the
      resolvable keys; raise, back-fill or strip. */
  method Stalled(mapping: map<string, Value>, raiseUnresolvable: bool, stripUnresolvable: bool,
                 conversions: map<string, Value>, deps: map<string, seq<string>>, ret: map<string, Value>, last: string)
    returns (r: Result<map<string, Value>, Unresolvable>)
    requires DepsTable(mapping, deps) && AllResolved(mapping, ret, conversions)
    requires Base(mapping) <= ret.Keys == Closure(mapping) && last in mapping && last !in ret
    ensures r.Err? <==> raiseUnresolvable
    ensures r.Err? ==> FailsWith(mapping, r.error)
    ensures r.Ok? ==> ResolvesTo(mapping, stripUnresolvable, conversions, r.value)
  {
    if !raiseUnresolvable {
      if !stripUnresolvable {
        // Keep the unresolved keys, each with its original value.
        BackfillIsOutcome(mapping, conversions, ret);
        return Ok(ret + map k | k in mapping.Keys - ret.Keys :: mapping[k]);
      }
      ResolvedIsOutcome(mapping, stripUnresolvable, conversions, ret);
      return Ok(ret);
    }
    FailureIsOutcome(mapping, deps, ret.Keys, last);
    return Err(Unresolvable(last, MissingNames(deps[last], ret.Keys)));
  }

  /** A round that grew the result shrinks what is left and grows what was resolved. */
  lemma Progress(keys: set<string>, base: set<string>, before: set<string>, after: set<string>)
    requires base <= before < after <= keys
    ensures |keys - after| < |keys - before| && |before - base| < |after - base|
  {
    SetFacts.ProperSubsetMinus(before, after, base);
    SetFacts.ProperSubsetCard(before - base, after - base);
    SetFacts.ProperSubsetMinus(keys - after, keys - before, {});
    assert keys - after < keys - before;
    SetFacts.ProperSubsetCard(keys - after, keys - before);
  }

  /** The loop ended with every key resolved. */
  lemma CompleteIsOutcome(m: map<string, Value>, strip: bool, conversions: map<string, Value>, ret: map<string, Value>)
    requires AllResolved(m, ret, conversions) && ret.Keys <= Closure(m) && |ret| == |m|
    ensures Closure(m) == m.Keys && ResolvesTo(m, strip, conversions, ret)
  {
    ClosureIsClosed(m);
    SetFacts.SameSizeKeys(ret, m);
    ResolvedIsOutcome(m, strip, conversions, ret);
  }

  /** `format_dict_recursively(mapping, raise_unresolvable, strip_unresolvable, conversions)`,
      with `conversions=None` passed as the empty map. Each round visits the
      unresolved keys in an arbitrary order, as iterating a Python set does;
      a key resolved earlier in a round is visible to the keys after it.
      `rounds` counts the passes of the `while` loop. */
  method FormatDictRecursively(mapping: map<string, Value>, raiseUnresolvable: bool, stripUnresolvable: bool,
                               conversions: map<string, Value>)
    returns (r: Result<map<string, Value>, Unresolvable>, ghost rounds: nat)
    ensures rounds <= |mapping.Keys - Base(mapping)| <= |mapping|
    ensures r.Err? <==> raiseUnresolvable && Closure(mapping) != mapping.Keys
    ensures r.Err? ==> FailsWith(mapping, r.error)
    ensures r.Ok? ==> ResolvesTo(mapping, stripUnresolvable, conversions, r.value)
  {
    ghost var closure := Closure(mapping);
    ClosureIsClosed(mapping);
    var ret, deps := CollectDeps(mapping);
    assert AllResolved(mapping, ret, conversions);

    rounds := 0;
    while |ret| != |mapping|
      invariant Base(mapping) <= ret.Keys <= closure
      invariant DepsTable(mapping, deps)
      invariant AllResolved(mapping, ret, conversions)
      invariant rounds <= |ret.Keys - Base(mapping)|
      decreases |mapping.Keys - ret.Keys|
    {
      rounds := rounds + 1;
      var startCount := |ret|;
      var before := ret;
      var last;
      ret, last := ResolveRound(mapping, deps, before, conversions);
      if startCount == |ret| {
        // No key was added: the round stalled.
        StallIsClosure(mapping, ret.Keys);
        assert ret.Keys != mapping.Keys;
        SetFacts.ProperSubsetMinus(ret.Keys, mapping.Keys, Base(mapping));
        SetFacts.ProperSubsetCard(ret.Keys - Base(mapping), mapping.Keys - Base(mapping));
        SetFacts.SubsetCard(mapping.Keys - Base(mapping), mapping.Keys);
        r := Stalled(mapping, raiseUnresolvable, stripUnresolvable, conversions, deps, ret, last);
        return r, rounds;
      }
      Progress(mapping.Keys, Base(mapping), before.Keys, ret.Keys);
    }
    CompleteIsOutcome(mapping, stripUnresolvable, conversions, ret);
    SetFacts.SubsetCard(mapping.Keys - Base(mapping), mapping.Keys);
    return Ok(ret), rounds;
  }

  // ---------------------------------------------------------------------------
  // The result does not depend on the order in which a round visits its keys.
  // ---------------------------------------------------------------------------

  /** Two results resolved on every key of `ClosureFrom(m, done)` that agree on
      `done` agree on all of it: each later key is formatted from names that
      are already equal in both. */
  lemma {:induction false} AgreeFrom(m: map<string, Value>, done: set<string>, conversions: map<string, Value>,
                                     r1: map<string, Value>, r2: map<string, Value>)
    requires done <= m.Keys
    requires ClosureFrom(m, done) <= r1.Keys && ClosureFrom(m, done) <= r2.Keys
    requires forall k :: k in ClosureFrom(m, done) ==>
      k in m && k in r1 && k in r2 && ResolvedAt(m, r1, conversions, k) && ResolvedAt(m, r2, conversions, k)
    requires forall k :: k in done ==> k in r1 && k in r2 && r1[k] == r2[k]
    ensures forall k :: k in ClosureFrom(m, done) ==> r1[k] == r2[k]
    decreases |m.Keys - done|
  {
    var next := Step(m, done);
    if next != done {
      SetFacts.ProperSubsetCard(m.Keys - next, m.Keys - done);
      ClosureFromIsFixpoint(m, next);
      forall k | k in next ensures k in r1 && k in r2 && r1[k] == r2[k] {
        if k !in done {
          assert Ready(m, done, k);
          assert AgreeOn(Deps(m[k].s), r1, r2);
          FormatFrame(m[k].s, r1, r2);
        }
      }
      AgreeFrom(m, next, conversions, r1, r2);
    }
  }

  /** At most one map satisfies `ResolvesTo`: every order of visiting the keys
      gives the same result. */
  lemma ResultIsUnique(m: map<string, Value>, strip: bool, conversions: map<string, Value>,
                       r1: map<string, Value>, r2: map<string, Value>)
    requires ResolvesTo(m, strip, conversions, r1) && ResolvesTo(m, strip, conversions, r2)
    ensures r1 == r2
  {
    ClosureIsClosed(m);
    AgreeFrom(m, Base(m), conversions, r1, r2);
    forall k | k in r1 ensures r1[k] == r2[k] {
      if k !in Closure(m) {
        assert r1[k] == m[k] == r2[k];
      }
    }
  }
}

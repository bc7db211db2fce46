/** The examples of the `format_dict_recursively` docstring (pytutils/mappings.py:191-207). */
module FormatDictExamples {
  import opened PyValues
  import opened FormatDict

  lemma ScanLiteral(c: char, rest: string)
    requires c != '{'
    ensures Scan([c] + rest) == [Lit(c)] + Scan(rest)
  {
    assert ([c] + rest)[1..] == rest;
  }

  lemma {:induction false} WordRunOfName(name: string, rest: string)
    requires forall i :: 0 <= i < |name| ==> IsWordChar(name[i])
    ensures WordRun(name + "}" + rest) == |name|
  {
    if name != [] {
      assert (name + "}" + rest)[1..] == name[1..] + "}" + rest;
      WordRunOfName(name[1..], rest);
    }
  }

  lemma ScanPlaceholder(name: string, rest: string)
    requires name != [] && forall i :: 0 <= i < |name| ==> IsWordChar(name[i])
    ensures Scan("{" + name + "}" + rest) == [Ref(name)] + Scan(rest)
  {
    var s := "{" + name + "}" + rest;
    assert s[1..] == name + "}" + rest;
    WordRunOfName(name, rest);
    assert s[1..|name| + 1] == name && s[|name| + 2..] == rest;
  }

  /** A literal prefix followed by one placeholder. */
  lemma {:induction false} OnePlaceholder(p: string, name: string, env: map<string, Value>)
    requires '{' !in p && name != [] && forall i :: 0 <= i < |name| ==> IsWordChar(name[i])
    requires name in env
    ensures Deps(p + "{" + name + "}") == [name]
    ensures Format(p + "{" + name + "}", env) == p + ToStr(env[name])
  {
    if p == [] {
      ScanPlaceholder(name, []);
      var t := "{" + name + "}";
      assert t + [] == t && p + "{" + name + "}" == t;
      assert Scan([]) == [];
      var ps := Scan(t);
      assert ps == [Ref(name)] && ps[1..] == [];
      assert RefNames(ps) == [name] + RefNames([]);
      assert Render(ps, env) == ToStr(env[name]) + Render([], env);
    } else {
      OnePlaceholder(p[1..], name, env);
      assert p + "{" + name + "}" == [p[0]] + (p[1..] + "{" + name + "}");
      ScanLiteral(p[0], p[1..] + "{" + name + "}");
      assert p == [p[0]] + p[1..];
    }
  }

  predicate IsName(name: string)
  {
    name != [] && forall i :: 0 <= i < |name| ==> IsWordChar(name[i])
  }

  /** A literal prefix and one placeholder: the shape of every template below. */
  function Tpl(p: string, name: string): string
  {
    p + "{" + name + "}"
  }

  predicate PlainPrefix(p: string)
  {
    '{' !in p && '\n' !in p
  }

  /** `dict(w=p + '{o}', o=True)`, in the docstring `dict(wat='wat{omg}', omg=True)`. */
  function Pair(w: string, p: string, o: string): map<string, Value>
  {
    map[w := Str(Tpl(p, o)), o := Bool(true)]
  }

  /** ... with `f=q + '{x}'` added, `x` a missing key: `fail='no{whale}'`. */
  function Triple(w: string, p: string, o: string, f: string, q: string, x: string): map<string, Value>
  {
    Pair(w, p, o)[f := Str(Tpl(q, x))]
  }

  predicate Shape(w: string, p: string, o: string, f: string, q: string, x: string)
  {
    w != o && f != w && f != o && x != w && x != o && x != f
    && PlainPrefix(p) && PlainPrefix(q) && IsName(o) && IsName(x)
  }

  lemma TplIsTemplate(p: string, name: string)
    requires PlainPrefix(p) && IsName(name)
    ensures IsTemplate(Str(Tpl(p, name)))
    ensures Deps(Tpl(p, name)) == [name]
  {
    OnePlaceholder(p, name, map[name := Bool(true)]);
    assert forall i :: 0 <= i < |name| ==> name[i] != '\n';
  }

  lemma ClosureOfPair(w: string, p: string, o: string)
    requires w != o && PlainPrefix(p) && IsName(o)
    ensures Closure(Pair(w, p, o)) == {w, o}
  {
    var m := Pair(w, p, o);
    TplIsTemplate(p, o);
    assert Base(m) == {o};
    ClosureIsClosed(m);
    ReadyInClosure(m, {o}, w);
  }

  lemma ClosureOfTriple(w: string, p: string, o: string, f: string, q: string, x: string)
    requires Shape(w, p, o, f, q, x)
    ensures Closure(Triple(w, p, o, f, q, x)) == {w, o}
  {
    var m := Triple(w, p, o, f, q, x);
    TplIsTemplate(p, o);
    TplIsTemplate(q, x);
    assert Base(m) == {o};
    ClosureIsClosed(m);
    ReadyInClosure(m, {o}, w);
    assert m[f].s == Tpl(q, x) && [x][0] !in {w, o};
    ClosureIsLeast(m, {w, o});
  }

  lemma FormatPair(w: string, p: string, o: string, r: map<string, Value>)
    requires PlainPrefix(p) && IsName(o) && o in r && r[o] == Bool(true)
    ensures Deps(Tpl(p, o)) == [o] && Format(Tpl(p, o), r) == p + "True"
  {
    OnePlaceholder(p, o, r);
  }

  /** The first example: `{'omg': True, 'wat': 'watTrue'}` for any key names. */
  lemma PairResolved(w: string, p: string, o: string, strip: bool, conversions: map<string, Value>, r: map<string, Value>)
    requires w != o && PlainPrefix(p) && IsName(o)
    requires ResolvesTo(Pair(w, p, o), strip, conversions, r)
    ensures r == map[w := Convert(p + "True", conversions), o := Bool(true)]
  {
    ClosureOfPair(w, p, o);
    TplIsTemplate(p, o);
    assert r[o] == Bool(true);
    FormatPair(w, p, o, r);
  }

  /** With the missing key, raising names the unresolvable key and its missing name. */
  lemma TripleRaises(w: string, p: string, o: string, f: string, q: string, x: string, e: Unresolvable)
    requires Shape(w, p, o, f, q, x)
    requires FailsWith(Triple(w, p, o, f, q, x), e)
    ensures e == Unresolvable(f, [x])
  {
    ClosureOfTriple(w, p, o, f, q, x);
    TplIsTemplate(q, x);
    assert MissingNames([x], {w, o}) == [x] + MissingNames([], {w, o});
  }

  lemma TripleUnresolvable(w: string, p: string, o: string, f: string, q: string, x: string)
    requires Shape(w, p, o, f, q, x)
    ensures Closure(Triple(w, p, o, f, q, x)) != Triple(w, p, o, f, q, x).Keys
  {
    ClosureOfTriple(w, p, o, f, q, x);
    assert f in Triple(w, p, o, f, q, x).Keys;
  }

  /** Not raising, the unresolvable key keeps its template ... */
  lemma TripleBackfilled(w: string, p: string, o: string, f: string, q: string, x: string,
                         conversions: map<string, Value>, r: map<string, Value>)
    requires Shape(w, p, o, f, q, x)
    requires ResolvesTo(Triple(w, p, o, f, q, x), false, conversions, r)
    ensures r == map[w := Convert(p + "True", conversions), o := Bool(true), f := Str(Tpl(q, x))]
  {
    ClosureOfTriple(w, p, o, f, q, x);
    TplIsTemplate(p, o);
    assert r[o] == Bool(true) && r[f] == Str(Tpl(q, x));
    FormatPair(w, p, o, r);
  }

  /** ... and stripping drops it. */
  lemma TripleStripped(w: string, p: string, o: string, f: string, q: string, x: string,
                       conversions: map<string, Value>, r: map<string, Value>)
    requires Shape(w, p, o, f, q, x)
    requires ResolvesTo(Triple(w, p, o, f, q, x), true, conversions, r)
    ensures r == map[w := Convert(p + "True", conversions), o := Bool(true)]
  {
    ClosureOfTriple(w, p, o, f, q, x);
    TplIsTemplate(p, o);
    assert r[o] == Bool(true);
    FormatPair(w, p, o, r);
  }

  // The docstring's own key names and templates.

  lemma DocShape()
    ensures Shape("wat", "wat", "omg", "fail", "no", "whale")
    ensures Tpl("wat", "omg") == "wat{omg}" && Tpl("no", "whale") == "no{whale}"
    ensures Convert("wat" + "True", DefaultConversions) == Str("watTrue")
  {
    assert "wat"[0] != "omg"[0] && "fail"[0] != "wat"[0] && "fail"[0] != "omg"[0];
    assert "whale"[1] != "wat"[1] && "whale"[0] != "omg"[0] && "whale"[0] != "fail"[0];
    assert "wat" + "True" == "watTrue";
    assert "watTrue" != "True" && "watTrue" != "False";
  }

  /** `format_dict_recursively(dict(wat='wat{omg}', omg=True))` is `{'omg': True, 'wat': 'watTrue'}`. */
  lemma DocResolved(r: map<string, Value>)
    requires ResolvesTo(map["wat" := Str("wat{omg}"), "omg" := Bool(true)], false, DefaultConversions, r)
    ensures r == map["wat" := Str("watTrue"), "omg" := Bool(true)]
  {
    DocShape();
    PairResolved("wat", "wat", "omg", false, DefaultConversions, r);
  }

  /** With `fail='no{whale}'` the default call raises, naming `{'fail': ['whale']}`. */
  lemma DocRaises(e: Unresolvable)
    requires FailsWith(map["wat" := Str("wat{omg}"), "omg" := Bool(true), "fail" := Str("no{whale}")], e)
    ensures e == Unresolvable("fail", ["whale"])
  {
    DocShape();
    TripleRaises("wat", "wat", "omg", "fail", "no", "whale", e);
  }

  /** ... and it does raise: `fail` is unresolvable. */
  lemma DocUnresolvable()
    ensures var m := map["wat" := Str("wat{omg}"), "omg" := Bool(true), "fail" := Str("no{whale}")];
            Closure(m) != m.Keys
  {
    DocShape();
    TripleUnresolvable("wat", "wat", "omg", "fail", "no", "whale");
  }

  /** `raise_unresolvable=False` gives `{'fail': 'no{whale}', 'omg': True, 'wat': 'watTrue'}`. */
  lemma DocBackfilled(r: map<string, Value>)
    requires ResolvesTo(map["wat" := Str("wat{omg}"), "omg" := Bool(true), "fail" := Str("no{whale}")], false, DefaultConversions, r)
    ensures r == map["wat" := Str("watTrue"), "omg" := Bool(true), "fail" := Str("no{whale}")]
  {
    DocShape();
    TripleBackfilled("wat", "wat", "omg", "fail", "no", "whale", DefaultConversions, r);
  }

  /** ... and with `strip_unresolvable=True` as well, `{'omg': True, 'wat': 'watTrue'}`. */
  lemma DocStripped(r: map<string, Value>)
    requires ResolvesTo(map["wat" := Str("wat{omg}"), "omg" := Bool(true), "fail" := Str("no{whale}")], true, DefaultConversions, r)
    ensures r == map["wat" := Str("watTrue"), "omg" := Bool(true)]
  {
    DocShape();
    TripleStripped("wat", "wat", "omg", "fail", "no", "whale", DefaultConversions, r);
  }
}

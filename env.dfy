/**
 * The env-file reader of pytutils/env.py: `KEY=VALUE` lines, optionally
 * quoted, folded into an ordered dict and copied into a target mapping.
 */
module Env {
  import opened Wrappers
  import opened PyValues
  import opened PyDict

  // ---------------------------------------------------------------------------
  // One line.
  // ---------------------------------------------------------------------------

  /** A non-empty run of `[A-Za-z_0-9]`. */
  predicate IsKey(k: string)
  {
    k != [] && forall i :: 0 <= i < |k| ==> IsWordChar(k[i])
  }

  /** The run over a key followed by anything else is the key. */
  lemma {:induction false} WordRunOfKey(k: string, rest: string)
    requires forall i :: 0 <= i < |k| ==> IsWordChar(k[i])
    requires rest != [] && !IsWordChar(rest[0])
    ensures WordRun(k + rest) == |k|
  {
    if k != [] {
      assert (k + rest)[1..] == k[1..] + rest;
      WordRunOfKey(k[1..], rest);
    } else {
      assert k + rest == rest;
    }
  }

  /** `re.match(r"\A'(.*)'\Z", val)`: a value between single quotes loses them. */
  function StripSingle(v: string): string
  {
    if |v| >= 2 && v[0] == '\'' && v[|v| - 1] == '\'' then v[1..|v| - 1] else v
  }

  /** `re.sub(r'\\(.)', r'\1', s)`: left to right, a backslash and the character
      after it (any but a newline) become that character. */
  function Unescape(s: string): (r: string)
    ensures |r| <= |s|
  {
    if |s| >= 2 && s[0] == '\\' && s[1] != '\n' then [s[1]] + Unescape(s[2..])
    else if s == [] then []
    else [s[0]] + Unescape(s[1..])
  }

  /** `re.match(r'\A"(.*)"\Z', val)`: a value between double quotes loses
      them and is unescaped. */
  function StripDouble(v: string): string
  {
    if |v| >= 2 && v[0] == '"' && v[|v| - 1] == '"' then Unescape(v[1..|v| - 1]) else v
  }

  /** The value of a line: the single-quote step, then the double-quote step. */
  function Unquote(raw: string): string
  {
    StripDouble(StripSingle(raw))
  }

  /** `re.match(r'\A([A-Za-z_0-9]+)=(.*)\Z', line)`: the key is the run of key
      characters, which must be followed by `=`; `.` stops at a newline and
      `\Z` is the end of the string, so the rest may hold none. */
  function ParseLine(line: string): Option<(string, string)>
  {
    var n := WordRun(line);
    if 0 < n < |line| && line[n] == '=' && '\n' !in line[n + 1..] then Some((line[..n], Unquote(line[n + 1..])))
    else None
  }

  /** A key, `=`, and a rest without a newline is accepted: the key is
      everything before the `=`, the value the rest unquoted. */
  lemma ParseLineAccepts(line: string, n: nat)
    requires 0 < n < |line| && IsKey(line[..n]) && line[n] == '=' && '\n' !in line[n + 1..]
    ensures ParseLine(line) == Some((line[..n], Unquote(line[n + 1..])))
  {
    assert line == line[..n] + line[n..];
    WordRunOfKey(line[..n], line[n..]);
  }

  /** ... and nothing else is: an accepted line is a key, the first `=`, and
      a rest without a newline. */
  lemma ParseLineRejects(line: string)
    requires ParseLine(line).Some?
    ensures var n := |ParseLine(line).value.0|;
      && 0 < n < |line| && line[..n] == ParseLine(line).value.0 && IsKey(line[..n])
      && line[n] == '=' && '=' !in line[..n] && '\n' !in line[n + 1..]
      && ParseLine(line).value.1 == Unquote(line[n + 1..])
  {
    WordRunIsMaximal(line);
    var n := WordRun(line);
    assert forall i :: 0 <= i < n ==> line[..n][i] == line[i];
  }

  /** A line `KEY=raw` is read as the key and the unquoted raw value. */
  lemma ParseKeyValue(k: string, raw: string)
    requires IsKey(k) && '\n' !in raw
    ensures ParseLine(k + "=" + raw) == Some((k, Unquote(raw)))
  {
    var line := k + "=" + raw;
    assert line[..|k|] == k && line[|k|] == '=' && line[|k| + 1..] == raw;
    ParseLineAccepts(line, |k|);
  }

  /** Writing a pair out as `KEY=VALUE` and reading it back gives the pair,
      for a value the quote steps leave alone. */
  lemma ParseFormattedLine(k: string, v: string)
    requires IsKey(k) && '\n' !in v
    requires Unquote(v) == v
    ensures ParseLine(k + "=" + v) == Some((k, v))
  {
    ParseKeyValue(k, v);
  }

  /** Single quotes around a value are removed and nothing else changes,
      unless what they held is itself in double quotes. */
  lemma UnquoteSingle(s: string)
    requires !(|s| >= 2 && s[0] == '"' && s[|s| - 1] == '"')
    ensures Unquote("'" + s + "'") == s
  {
    var v := "'" + s + "'";
    assert v[1..|v| - 1] == s;
    assert StripSingle(v) == s;
  }

  /** What `Unescape` undoes: a backslash before every backslash and double quote. */
  function Escape(s: string): string
  {
    if s == [] then []
    else (if s[0] == '\\' || s[0] == '"' then ['\\', s[0]] else [s[0]]) + Escape(s[1..])
  }

  lemma {:induction false} UnescapeEscape(s: string)
    requires '\n' !in s
    ensures Unescape(Escape(s)) == s
  {
    if s != [] {
      assert '\n' !in s[1..];
      UnescapeEscape(s[1..]);
      var e := Escape(s);
      if s[0] == '\\' || s[0] == '"' {
        assert e == ['\\', s[0]] + Escape(s[1..]);
        assert e[2..] == Escape(s[1..]);
      } else {
        assert e == [s[0]] + Escape(s[1..]);
        assert e[1..] == Escape(s[1..]);
      }
      assert s == [s[0]] + s[1..];
    }
  }

  /** A value written between double quotes with `Escape` is read back as it was. */
  lemma ParseDoubleQuoted(k: string, v: string)
    requires IsKey(k) && '\n' !in v
    ensures ParseLine(k + "=" + ("\"" + Escape(v) + "\"")) == Some((k, v))
  {
    var raw := "\"" + Escape(v) + "\"";
    EscapeHasNoNewline(v);
    assert '\n' !in raw;
    ParseKeyValue(k, raw);
    assert raw[0] == '"' && raw[|raw| - 1] == '"' && raw[1..|raw| - 1] == Escape(v);
    assert StripSingle(raw) == raw;
    UnescapeEscape(v);
  }

  lemma {:induction false} EscapeHasNoNewline(s: string)
    requires '\n' !in s
    ensures '\n' !in Escape(s)
  {
    if s != [] {
      assert '\n' !in s[1..];
      EscapeHasNoNewline(s[1..]);
    }
  }

  /** `parse_env_file_contents(lines)`: one pair per accepted line, in line order. */
  function ParseEnvFileContents(lines: seq<string>): seq<(string, string)>
  {
    if lines == [] then []
    else
      var init := ParseEnvFileContents(lines[..|lines| - 1]);
      match ParseLine(lines[|lines| - 1])
      case Some(p) => init + [p]
      case None => init
  }

  /** Parsing distributes over concatenation: each line is read on its own. */
  lemma {:induction false} ParseAppend(a: seq<string>, b: seq<string>)
    ensures ParseEnvFileContents(a + b) == ParseEnvFileContents(a) + ParseEnvFileContents(b)
    decreases |b|
  {
    if b == [] {
      assert a + b == a;
    } else {
      var b0 := b[..|b| - 1];
      ParseAppend(a, b0);
      assert (a + b)[..|a + b| - 1] == a + b0;
      assert (a + b)[|a + b| - 1] == b[|b| - 1];
    }
  }

  /** Every pair comes from some line, and every accepted line gives one pair. */
  lemma {:induction false} ParseCount(lines: seq<string>)
    ensures |ParseEnvFileContents(lines)| <= |lines|
    ensures (forall i :: 0 <= i < |lines| ==> ParseLine(lines[i]).Some?) ==> |ParseEnvFileContents(lines)| == |lines|
    ensures forall p :: p in ParseEnvFileContents(lines) ==> exists i :: 0 <= i < |lines| && ParseLine(lines[i]) == Some(p)
  {
    if lines != [] {
      var init := lines[..|lines| - 1];
      ParseCount(init);
      assert forall i :: 0 <= i < |init| ==> init[i] == lines[i];
    }
  }

  // ---------------------------------------------------------------------------
  // load_env_file.
  // ---------------------------------------------------------------------------

  /** The entries after assigning the pairs in order: the last value of each key wins. */
  function Assigned(pairs: seq<(string, string)>): map<Key, Value>
  {
    if pairs == [] then map[]
    else
      var last := pairs[|pairs| - 1];
      Assigned(pairs[..|pairs| - 1])[SKey(last.0) := Str(last.1)]
  }

  /** The keys after assigning the pairs in order: each where it first appeared. */
  function FirstSeen(pairs: seq<(string, string)>): seq<Key>
  {
    if pairs == [] then []
    else
      var init := FirstSeen(pairs[..|pairs| - 1]);
      var k := SKey(pairs[|pairs| - 1].0);
      if k in init then init else init + [k]
  }

  /** Each key of the result holds the value of the last pair that names it. */
  lemma {:induction false} AssignedIsLastValue(pairs: seq<(string, string)>, i: nat)
    requires i < |pairs|
    requires forall j :: i < j < |pairs| ==> pairs[j].0 != pairs[i].0
    ensures SKey(pairs[i].0) in Assigned(pairs) && Assigned(pairs)[SKey(pairs[i].0)] == Str(pairs[i].1)
  {
    if i < |pairs| - 1 {
      var init := pairs[..|pairs| - 1];
      assert forall j :: i < j < |init| ==> init[j] == pairs[j];
      AssignedIsLastValue(init, i);
    }
  }

  /** The keys of the result are those named by some pair, each once. */
  lemma {:induction false} FirstSeenKeys(pairs: seq<(string, string)>)
    ensures Distinct(FirstSeen(pairs))
    ensures forall k :: k in FirstSeen(pairs) <==> k in Assigned(pairs)
    ensures forall k :: k in Assigned(pairs) <==> exists i :: 0 <= i < |pairs| && k == SKey(pairs[i].0)
  {
    if pairs != [] {
      var init := pairs[..|pairs| - 1];
      FirstSeenKeys(init);
      assert forall i :: 0 <= i < |init| ==> init[i] == pairs[i];
      var k := SKey(pairs[|pairs| - 1].0);
      var f := FirstSeen(init);
      if k !in f {
        forall a, b | 0 <= a < b < |f + [k]| ensures (f + [k])[a] != (f + [k])[b] {
          if b == |f| {
            assert (f + [k])[a] == f[a];
            assert f[a] in f;
          } else {
            assert (f + [k])[a] == f[a] && (f + [k])[b] == f[b];
          }
        }
      }
    }
  }

  /** One more pair: its key is assigned its value, and is appended to the
      key order unless an earlier pair named it. */
  lemma AssignedStep(pairs: seq<(string, string)>, i: nat)
    requires i < |pairs|
    ensures Assigned(pairs[..i + 1]) == Assigned(pairs[..i])[SKey(pairs[i].0) := Str(pairs[i].1)]
    ensures FirstSeen(pairs[..i + 1]) ==
              if SKey(pairs[i].0) in FirstSeen(pairs[..i]) then FirstSeen(pairs[..i])
              else FirstSeen(pairs[..i]) + [SKey(pairs[i].0)]
  {
    assert pairs[..i + 1][..i] == pairs[..i];
  }

  /** The keys of `keys` that are not in `present`, in their order: where
      assigning them appends to a dict that already holds `present`. */
  function NewKeys(keys: seq<Key>, present: set<Key>): (r: seq<Key>)
    ensures forall k :: k in r <==> k in keys && k !in present
  {
    if keys == [] then []
    else
      var last := keys[|keys| - 1];
      NewKeys(keys[..|keys| - 1], present) + (if last in present then [] else [last])
  }

  /** Assigning one more key to the first dict appends it to the new keys of
      the second exactly when neither dict held it. */
  lemma NewKeysStep(prev: seq<Key>, k: Key, present: set<Key>)
    ensures NewKeys(if k in prev then prev else prev + [k], present) ==
              NewKeys(prev, present) + (if k in prev || k in present then [] else [k])
  {
    if k !in prev {
      assert (prev + [k])[..|prev|] == prev;
    }
  }

  lemma ConcatAssoc<T>(a: seq<T>, b: seq<T>, c: seq<T>)
    ensures (a + b) + c == a + (b + c)
  {
  }

  /** Writing one entry into both maps keeps the second a layer over the first. */
  lemma UnionUpdate(base: map<Key, Value>, layer: map<Key, Value>, k: Key, v: Value)
    ensures (base + layer)[k := v] == base + layer[k := v]
  {
  }

  /** `changes[k] = v`, then `write_environ[k] = v` when there is one: the
      target stays `changes` laid over its original entries, with the keys it
      lacked appended in the order `changes` first got them. */
  method AssignBoth(changes: Dict, writeEnviron: Dict?, k: Key, v: Value, ghost before: map<Key, Value>, ghost beforeOrder: seq<Key>)
    requires changes.Valid() && changes != writeEnviron
    requires writeEnviron != null ==> writeEnviron.Valid() && writeEnviron.items == before + changes.items
    requires writeEnviron != null ==> writeEnviron.order == beforeOrder + NewKeys(changes.order, before.Keys)
    modifies changes, writeEnviron
    ensures changes.Valid()
    ensures changes.items == old(changes.items)[k := v]
    ensures changes.order == if k in old(changes.items) then old(changes.order) else old(changes.order) + [k]
    ensures writeEnviron != null ==> writeEnviron.Valid() && writeEnviron.items == before + changes.items
    ensures writeEnviron != null ==> writeEnviron.order == beforeOrder + NewKeys(changes.order, before.Keys)
  {
    ghost var prev := changes.order;
    ghost var isNew := k !in prev && k !in before.Keys;
    NewKeysStep(prev, k, before.Keys);
    changes.Set(k, v);
    if writeEnviron != null {
      UnionUpdate(before, old(changes.items), k, v);
      assert k in writeEnviron.items <==> !isNew;
      ghost var tail := if isNew then [k] else [];
      ghost var added := NewKeys(changes.order, before.Keys);
      assert added == NewKeys(prev, before.Keys) + tail;
      ghost var w0 := writeEnviron.order;
      ghost var earlier := NewKeys(prev, before.Keys);
      assert w0 == beforeOrder + earlier;
      writeEnviron.Set(k, v);
      assert writeEnviron.order == w0 + tail;
      ConcatAssoc(beforeOrder, earlier, tail);
    }
  }

  /** `load_env_file(lines, write_environ)` with `os.path.expandvars` and
      `os.path.expanduser` given as `expand`, and `write_environ=None` as
      `null`. The pairs are read in line order; each value is expanded, put
      into the returned ordered dict, and written to `write_environ` too. */
  method LoadEnvFile(lines: seq<string>, expand: string -> string, writeEnviron: Dict?) returns (changes: Dict)
    requires writeEnviron != null ==> writeEnviron.Valid()
    modifies writeEnviron
    ensures fresh(changes) && changes.Valid()
    ensures changes.items == Assigned(Expanded(ParseEnvFileContents(lines), expand))
    ensures changes.order == FirstSeen(Expanded(ParseEnvFileContents(lines), expand))
    ensures writeEnviron != null ==> writeEnviron.Valid() && writeEnviron.items == old(writeEnviron.items) + changes.items
    ensures writeEnviron != null ==>
              writeEnviron.order == old(writeEnviron.order) + NewKeys(changes.order, old(writeEnviron.items).Keys)
  {
    var values := ParseEnvFileContents(lines);
    ghost var pairs := Expanded(values, expand);
    ghost var before := if writeEnviron != null then writeEnviron.items else map[];
    ghost var beforeOrder := if writeEnviron != null then writeEnviron.order else [];
    changes := new Dict();
    var i := 0;
    while i < |values|
      invariant 0 <= i <= |values| && |pairs| == |values|
      invariant fresh(changes) && changes.Valid() && changes != writeEnviron
      invariant changes.items == Assigned(pairs[..i])
      invariant changes.order == FirstSeen(pairs[..i])
      invariant writeEnviron != null ==> writeEnviron.Valid() && writeEnviron.items == before + changes.items
      invariant writeEnviron != null ==> writeEnviron.order == beforeOrder + NewKeys(changes.order, before.Keys)
    {
      var (k, v) := values[i];
      v := expand(v);
      assert pairs[i] == (k, v);
      AssignedStep(pairs, i);
      ghost var next, nextOrder := Assigned(pairs[..i + 1]), FirstSeen(pairs[..i + 1]);
      AssignBoth(changes, writeEnviron, SKey(k), Str(v), before, beforeOrder);
      assert changes.items == next && changes.order == nextOrder;
      i := i + 1;
      assert changes.items == Assigned(pairs[..i]) && changes.order == FirstSeen(pairs[..i]);
    }
    assert pairs[..i] == pairs;
  }

  /** The pairs with every value expanded. */
  function Expanded(pairs: seq<(string, string)>, expand: string -> string): (r: seq<(string, string)>)
    ensures |r| == |pairs|
    ensures forall i :: 0 <= i < |pairs| ==> r[i] == (pairs[i].0, expand(pairs[i].1))
  {
    seq(|pairs|, i requires 0 <= i < |pairs| => (pairs[i].0, expand(pairs[i].1)))
  }

  /** Three accepted lines give three pairs, in line order. */
  lemma ParseThree(a: string, b: string, c: string, p: (string, string), q: (string, string), s: (string, string))
    requires ParseLine(a) == Some(p) && ParseLine(b) == Some(q) && ParseLine(c) == Some(s)
    ensures ParseEnvFileContents([a, b, c]) == [p, q, s]
  {
    assert [a, b, c][..2] == [a, b] && [a, b][..1] == [a] && [a][..0] == [];
    assert ParseEnvFileContents([a]) == [p];
    assert ParseEnvFileContents([a, b]) == [p, q];
  }

  /** Three pairs with different keys give three entries, keys in pair order. */
  lemma AssignThree(p: (string, string), q: (string, string), s: (string, string))
    requires p.0 != q.0 && p.0 != s.0 && q.0 != s.0
    ensures Assigned([p, q, s]) == map[SKey(p.0) := Str(p.1), SKey(q.0) := Str(q.1), SKey(s.0) := Str(s.1)]
    ensures FirstSeen([p, q, s]) == [SKey(p.0), SKey(q.0), SKey(s.0)]
  {
    assert [p, q, s][..2] == [p, q] && [p, q][..1] == [p] && [p][..0] == [];
    assert Assigned([p]) == map[SKey(p.0) := Str(p.1)] && FirstSeen([p]) == [SKey(p.0)];
    assert Assigned([p, q]) == map[SKey(p.0) := Str(p.1), SKey(q.0) := Str(q.1)];
    assert FirstSeen([p, q]) == [SKey(p.0), SKey(q.0)];
  }

  /** Three unquoted `k=v` lines are read as their three pairs. */
  lemma ParseUnquoted(k1: string, v1: string, k2: string, v2: string, k3: string, v3: string)
    requires IsKey(k1) && '\n' !in v1 && v1 != [] && v1[0] != '\'' && v1[0] != '"'
    requires IsKey(k2) && '\n' !in v2 && v2 != [] && v2[0] != '\'' && v2[0] != '"'
    requires IsKey(k3) && '\n' !in v3 && v3 != [] && v3[0] != '\'' && v3[0] != '"'
    ensures ParseEnvFileContents([k1 + "=" + v1, k2 + "=" + v2, k3 + "=" + v3]) == [(k1, v1), (k2, v2), (k3, v3)]
  {
    ExampleLine(k1, v1);
    ExampleLine(k2, v2);
    ExampleLine(k3, v3);
    ParseThree(k1 + "=" + v1, k2 + "=" + v2, k3 + "=" + v3, (k1, v1), (k2, v2), (k3, v3));
  }

  /** Loading three unquoted `k=v` lines with different keys. */
  method LoadUnquoted(k1: string, v1: string, k2: string, v2: string, k3: string, v3: string, expand: string -> string)
    returns (changes: Dict)
    requires IsKey(k1) && '\n' !in v1 && v1 != [] && v1[0] != '\'' && v1[0] != '"'
    requires IsKey(k2) && '\n' !in v2 && v2 != [] && v2[0] != '\'' && v2[0] != '"'
    requires IsKey(k3) && '\n' !in v3 && v3 != [] && v3[0] != '\'' && v3[0] != '"'
    requires k1 != k2 && k1 != k3 && k2 != k3
    ensures changes.order == [SKey(k1), SKey(k2), SKey(k3)]
    ensures changes.items == map[SKey(k1) := Str(expand(v1)), SKey(k2) := Str(expand(v2)), SKey(k3) := Str(expand(v3))]
  {
    var lines := [k1 + "=" + v1, k2 + "=" + v2, k3 + "=" + v3];
    ParseUnquoted(k1, v1, k2, v2, k3, v3);
    changes := LoadEnvFile(lines, expand, null);
    ghost var e := Expanded([(k1, v1), (k2, v2), (k3, v3)], expand);
    assert e == [(k1, expand(v1)), (k2, expand(v2)), (k3, expand(v3))];
    AssignThree(e[0], e[1], e[2]);
  }

  /** The docstring of `parse_env_file_contents`: three unquoted lines give
      three keys in order, each with its expanded value. */
  method LoadEnvFileExample(expand: string -> string) returns (changes: Dict)
    ensures changes.order == [SKey("TEST"), SKey("THISIS"), SKey("YOLO")]
    ensures changes.items == map[SKey("TEST") := Str(expand("${HOME}/yeee")),
                                 SKey("THISIS") := Str(expand("~/a/test")),
                                 SKey("YOLO") := Str(expand("~/swaggins/" + "$NONEXISTENT_VAR_THAT_DOES_NOT_EXIST"))]
  {
    var k1, k2, k3 := "TEST", "THISIS", "YOLO";
    var v1, v2, v3 := "${HOME}/yeee", "~/a/test", "~/swaggins/" + "$NONEXISTENT_VAR_THAT_DOES_NOT_EXIST";
    assert forall i :: 0 <= i < |k1| ==> IsWordChar(k1[i]);
    assert forall i :: 0 <= i < |k2| ==> IsWordChar(k2[i]);
    assert forall i :: 0 <= i < |k3| ==> IsWordChar(k3[i]);
    assert forall i :: 0 <= i < |v1| ==> v1[i] != '\n';
    assert forall i :: 0 <= i < |v2| ==> v2[i] != '\n';
    assert forall i :: 0 <= i < |v3| ==> v3[i] != '\n';
    assert k1[1] != k2[1] && k1[0] != k3[0] && k2[0] != k3[0];
    changes := LoadUnquoted(k1, v1, k2, v2, k3, v3, expand);
  }

  /** `k=v` for an unquoted value is read as `(k, v)`. */
  lemma ExampleLine(k: string, v: string)
    requires IsKey(k) && '\n' !in v && v != [] && v[0] != '\'' && v[0] != '"'
    ensures ParseLine(k + "=" + v) == Some((k, v))
  {
    ParseFormattedLine(k, v);
  }
}

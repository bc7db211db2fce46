# pytutils helpers, modelled in Dafny

This project models the parts of the `pytutils` Python utility collection
that compute something definite, and proves what they promise:

- **`format_dict_recursively`** (`FormatDict`, `FormatDictExamples`): a
  dictionary whose string values are `{name}` templates over its own keys is
  resolved round by round. A round formats every key whose placeholders are
  already resolved and passes the result through a `conversions` table. A
  round that makes no progress raises `ValueError`, back-fills the original
  values, or strips the unresolved keys. The model visits a round's keys in
  an arbitrary order, as iterating a Python `set` does. It proves that the
  result is the same for every order: the resolved keys are the least
  fixpoint `Closure` of "all placeholders resolved".
- **Mapping wrappers** (`Proxies`, `OrderedDicts`, on the insertion-ordered
  dict of `PyDict`):
  - the write-through proxy;
  - the prefix-translating proxy;
  - `ProcessLocal`, which replaces its dict when the process id changes;
  - `LastUpdatedOrderedDict`;
  - `MultiDict.__setitem__`.

  The three proxies (the write-through proxy, the prefixed proxy and
  `ProcessLocal`) are classes holding a reference to the wrapped dict, so a
  write through the proxy changes the caller's dict. `LastUpdatedOrderedDict`
  and `MultiDict` are dict subclasses, so each is a class over its own
  entries. The prefixed proxy appears twice:
  - in utils.py, with the prefix rules written out in each method;
  - in pytutils/mappings.py, where `HookableProxyMutableMapping` routes each
    access through `__key_trans__` and `__key_allowed__`.

  Both versions translate keys the same way, so one class `PrefixedProxy`
  models both.
- **Env files** (`Env`): `KEY=VALUE` lines with optional single or double
  quotes, read in line order, folded into an ordered dict and copied into a
  target mapping. `os.path.expandvars` and `os.path.expanduser` are an
  uninterpreted function `expand`.
- **Iterator helpers** (`Iters`): `accumulate`, `consume` and `dedupe_iter`.
  A generator is modelled as the list it yields.
- **Subdomain ladder** (`Tlds`): the list-building half of
  `split_domain_into_subdomains`, with the public-suffix lookup's
  `(subdomain, domain, suffix)` as inputs.
- **`TimedValueSet`** (`Sets`): a set with the time each member was last
  added. Clock readings are parameters.

`PyValues` holds the value and key types shared by the modules:
- a `Value` is a string, a bool, a dict, or any other object, the last two
  carried with their `str()` text;
- a `Key` is a string or some other hashable object.

`SetFacts` holds cardinality facts about finite sets.

Where the library's description and its code differ, the model follows the
code:
- An env line is accepted only if its value holds no newline. Because `.`
  does not match a newline and `\Z` matches only at the very end of the
  string, a line that still ends in `\n` is skipped.
- `format_dict_recursively` runs at most as many rounds as there are
  template keys. That is never more than the number of keys, and a stalled
  round counts as one of them.

## Model

| member | source | states |
|---|---|---|
| PyValues.WordRun | pytutils/mappings.py:227 | how far a greedy `\w+` reaches from the start of a string, never past its end; the same run is the env-file key `[A-Za-z_0-9]+` at pytutils/env.py:28; `WordRunIsMaximal` characterises it |
| PyValues.WordRunIsMaximal | pytutils/mappings.py:227 | the name after `{`, and the env-file key, is the longest run of word characters: word characters up to its end, none just after |
| FormatDict.Scan | pytutils/mappings.py:227 | cuts a template into literal characters and `{name}` placeholders, left to right as `re.findall(r'\{(\w+)\}', v)` matches; no contract of its own: `ScanRoundTrip` and `DepsAreWords` characterise it |
| FormatDict.Deps | pytutils/mappings.py:227 | `deps[k]`: the placeholder names in order, repeats included; no contract of its own: `DepsAreWords` and `MissingNames` characterise it |
| FormatDict.Format | pytutils/mappings.py:241 | `template.format(**ret)` for `{name}` templates: each placeholder replaced by `str()` of its value; no contract of its own: `FormatFrame`, `FormatNoPlaceholders` and `FormatDictExamples.FormatPair` characterise it |
| FormatDict.Convert | pytutils/mappings.py:243-244 | the formatted string replaced by `conversions[s]` when it is a key there, else kept; no contract of its own: `VisitKey` and `AddResolved` state it of each assigned key |
| FormatDict.ScanRoundTrip | pytutils/mappings.py:227 | cutting a template into literal characters and `{name}` placeholders loses nothing: writing the pieces back gives the template |
| FormatDict.DepsAreWords | pytutils/mappings.py:227 | every dependency `re.findall(r'\{(\w+)\}', v)` records is a non-empty run of word characters |
| FormatDict.FormatFrame | pytutils/mappings.py:241 | `template.format(**ret)` depends only on the values of the names the template mentions |
| FormatDict.FormatNoPlaceholders | pytutils/mappings.py:241 | a template without placeholders formats to itself |
| FormatDict.MissingNames | pytutils/mappings.py:254 | `[x for x in deps[k] if x not in ret]` holds exactly the dependencies not yet resolved, and is empty exactly when all are |
| FormatDict.ClosureFromIsFixpoint | pytutils/mappings.py:231-252 | repeating rounds from a set of resolved keys reaches a superset of it within the keys, in which no further key is ready |
| FormatDict.ClosureFromIsLeast | pytutils/mappings.py:231-252 | that fixpoint lies inside every closed set that contains the starting keys |
| FormatDict.ClosureIsClosed | pytutils/mappings.py:231-252 | the resolvable keys contain every copied-through key and leave no other key ready |
| FormatDict.ClosureIsLeast | pytutils/mappings.py:231-252 | the resolvable keys are the least set with that property |
| FormatDict.ReadyInClosure | pytutils/mappings.py:236-241 | a key whose dependencies are all resolvable is itself resolvable |
| FormatDict.AddResolved | pytutils/mappings.py:241-244 | assigning a ready key its formatted and converted template keeps every key of the result correctly resolved |
| FormatDict.CollectDeps | pytutils/mappings.py:220-229 | non-strings and strings with a newline are copied unchanged; every other key gets its dependency list |
| FormatDict.VisitKey | pytutils/mappings.py:236-244 | a key is skipped while a dependency is missing, and is otherwise assigned its formatted template, swapped for `conversions[s]` when `s` is a key of it; earlier entries are untouched |
| FormatDict.ResolveRound | pytutils/mappings.py:232-245 | a round keeps every earlier entry; either it strictly grows the result, or it changes nothing and the result is closed |
| FormatDict.RoundEnd | pytutils/mappings.py:247 | a round that added no key left no unresolved key ready |
| FormatDict.StallIsClosure | pytutils/mappings.py:247 | a stalled round has resolved exactly the resolvable keys |
| FormatDict.Progress | pytutils/mappings.py:231-247 | a round that grew the result shrinks the unresolved key count, which bounds the loop |
| FormatDict.Stalled | pytutils/mappings.py:246-255 | on a stall the call raises exactly when `raise_unresolvable` is set, naming the last visited key and its missing names; otherwise it back-fills or strips |
| FormatDict.ResolvedIsOutcome | pytutils/mappings.py:247-252 | a stalled result restricted to the resolvable keys is the documented result when stripping |
| FormatDict.BackfillIsOutcome | pytutils/mappings.py:249-251 | back-filling the unresolved keys with their original values gives the documented result without stripping |
| FormatDict.FailureIsOutcome | pytutils/mappings.py:254-255 | the raised error names an unresolvable template key and exactly its dependencies missing from the result |
| FormatDict.CompleteIsOutcome | pytutils/mappings.py:231 | a loop that ended with every key resolved has the documented result |
| FormatDict.FormatDictRecursively | pytutils/mappings.py:178-257 | raises exactly when `raise_unresolvable` is set and some key can never be resolved; otherwise returns every resolvable key correctly formatted and converted, plus the unresolved keys with their original values unless stripping; runs at most one round per template key |
| FormatDict.AgreeFrom | pytutils/mappings.py:233-244 | two correctly resolved results that agree on the starting keys agree on everything resolvable from them |
| FormatDict.ResultIsUnique | pytutils/mappings.py:233-236 | at most one map is a correct result, so the order in which a round visits the set of keys does not matter |
| FormatDictExamples.OnePlaceholder | pytutils/mappings.py:227-241 | `p + '{name}'` with a brace-free `p` depends on `name` alone and formats to `p` followed by `str()` of its value |
| FormatDictExamples.TplIsTemplate | pytutils/mappings.py:224-227 | such a string is scanned for placeholders, with that one dependency |
| FormatDictExamples.ClosureOfPair | pytutils/mappings.py:192-194 | in `dict(wat='wat{omg}', omg=True)`, under any names, both keys are resolvable |
| FormatDictExamples.ClosureOfTriple | pytutils/mappings.py:199-207 | adding `fail='no{whale}'` with `whale` missing leaves `fail` unresolvable |
| FormatDictExamples.FormatPair | pytutils/mappings.py:192-194 | `'wat{omg}'` with `omg=True` formats to `'watTrue'` |
| FormatDictExamples.PairResolved | pytutils/mappings.py:192-194 | the result for the pair is the converted `'watTrue'` and `True` |
| FormatDictExamples.TripleUnresolvable | pytutils/mappings.py:199-203 | the triple cannot be fully resolved, so the default call raises |
| FormatDictExamples.TripleRaises | pytutils/mappings.py:199-203 | the error names `fail` and its missing `whale` |
| FormatDictExamples.TripleBackfilled | pytutils/mappings.py:204-205 | without raising, `fail` keeps its template |
| FormatDictExamples.TripleStripped | pytutils/mappings.py:206-207 | with stripping, `fail` is dropped |
| FormatDictExamples.DocShape | pytutils/mappings.py:191-207 | the docstring's keys and templates fit the general lemmas, and the default conversions leave `'watTrue'` a string |
| FormatDictExamples.DocResolved | pytutils/mappings.py:192-194 | `{'omg': True, 'wat': 'watTrue'}` |
| FormatDictExamples.DocUnresolvable | pytutils/mappings.py:199-203 | the second docstring dict raises under the defaults |
| FormatDictExamples.DocRaises | pytutils/mappings.py:199-203 | the error is `{'fail': ['whale']}` |
| FormatDictExamples.DocBackfilled | pytutils/mappings.py:204-205 | `{'fail': 'no{whale}', 'omg': True, 'wat': 'watTrue'}` |
| FormatDictExamples.DocStripped | pytutils/mappings.py:206-207 | `{'omg': True, 'wat': 'watTrue'}` |
| Proxies.Proxy.Contains | pytutils/mappings.py:73-74 | `k in proxy` is membership in the wrapped dict |
| Proxies.Proxy.Get | pytutils/mappings.py:76-77 | the wrapped dict's value, or `KeyError(k)` |
| Proxies.Proxy.Set | pytutils/mappings.py:79-80 | the wrapped dict gets the entry; every other entry and the key order are kept |
| Proxies.Proxy.Delete | pytutils/mappings.py:82-83 | the wrapped dict loses the key and its place in the order, or `KeyError(k)` if absent with nothing changed; every other entry is kept |
| Proxies.Proxy.Iter | pytutils/mappings.py:85-86 | the wrapped dict's keys in its order, each once |
| Proxies.Proxy.Len | pytutils/mappings.py:88-89 | the wrapped dict's size |
| Proxies.AddPrefix | utils.py:119-120 | `prefix + key` puts the prefix in front of a string key and raises `TypeError` for any other key |
| Proxies.RemovePrefix | utils.py:122-123 | `key[n:]` drops the first `n` characters, or gives `''` for a shorter key; `TypeError` for a non-string |
| Proxies.StripThenAdd | utils.py:119-132 | an allowed key with its prefix removed and added back is the key |
| Proxies.AddThenStrip | utils.py:119-132 | a key with the prefix added is allowed and strips back to the key |
| Proxies.StoreAndLookupDiffer | pytutils/mappings.py:143-146 | with a non-empty prefix, a store and a lookup of the same key reach different wrapped keys |
| Proxies.StripMatches | utils.py:125-140 | with `only_prefixed`, iteration lists `y` for wrapped key `k` exactly when `k` is `prefix + y` |
| Proxies.VisibleOnlyPrefixed | utils.py:125-140 | with `only_prefixed`, iteration never fails and lists exactly the keys whose prefixed form is in the wrapped dict |
| Proxies.VisibleAllKeys | utils.py:125-140 | without `only_prefixed`, iteration fails exactly when a wrapped key is not a string, and otherwise lists one key per wrapped key |
| Proxies.VisibleFailsOnward | utils.py:134-140 | once iteration has failed on a prefix of the wrapped keys, it fails the same way on all of them |
| Proxies.PrefixedProxy.Contains | utils.py:142-144 | `k in proxy` asks for `prefix + k`; `TypeError` for a non-string |
| Proxies.PrefixedProxy.Get | utils.py:146-148 | `proxy[k]` reads `prefix + k`, or `KeyError(prefix + k)` |
| Proxies.PrefixedProxy.Set | utils.py:150-152 | `proxy[k] = v` stores under `k[len(prefix):]`, as written; a new wrapped key goes last in the order, an existing one keeps its place |
| Proxies.PrefixedProxy.SetPrefixed | utils.py:150-152 | the corrected store under `prefix + k`; a new wrapped key goes last in the order, an existing one keeps its place |
| Proxies.PrefixedProxy.Delete | utils.py:154-156 | `del proxy[k]` removes `prefix + k` and its place in the order, or gives `KeyError(prefix + k)`; nothing else changes |
| Proxies.PrefixedProxy.Iter | utils.py:134-140 | iteration is the allowed wrapped keys in dict order, each with its prefix length cut off |
| Proxies.PrefixedProxy.Len | utils.py:98-99 | the wrapped dict's full size, hidden keys included |
| Proxies.SetThenGetAsWritten | utils.py:146-152 | with prefix `p_`, `proxy['x'] = v` followed by `proxy['x']` raises `KeyError('p_x')` |
| Proxies.SetThenGetPrefixed | utils.py:142-152 | with the corrected store, a written key is read back, is contained, and is listed |
| Proxies.ProcessLocal.HandlePid | pytutils/mappings.py:378-384 | a different process id installs a fresh empty dict and records the id; the same id keeps the dict |
| Proxies.ProcessLocal.Get | pytutils/mappings.py:374-376 | a read checks the process id first: under a new id it finds the empty dict and raises `KeyError` |
| Proxies.ProcessLocal.Contains | pytutils/mappings.py:374-376 | membership after the process-id check |
| Proxies.ProcessLocal.Set | pytutils/mappings.py:374-376 | a write after the process-id check: into the kept dict, a new key going last, or into a fresh one holding only the new entry |
| Proxies.ProcessLocal.Delete | pytutils/mappings.py:374-376 | a delete after the process-id check: the key and its place in the order go; `KeyError` under a new id or for an absent key |
| Proxies.ProcessLocal.Len | pytutils/mappings.py:88-89 | the current dict's size, without a process-id check |
| Proxies.ProcessLocal.Iter | pytutils/mappings.py:104-106 | as written, iterating a non-empty `ProcessLocal` raises `AttributeError` |
| Proxies.ProcessLocal.IterKeys | pytutils/mappings.py:104-106 | the corrected iteration: the keys of the current dict in its order, each once |
| Proxies.ProcessLocalExample | pytutils/mappings.py:347-357 | the docstring: `True` is read back, and after a forced process-id change the key raises `KeyError` |
| Proxies.ProcessLocalIterAsWritten | pytutils/mappings.py:104-106 | a `ProcessLocal` holding `'test'` fails to iterate, while the corrected iteration lists `'test'` |
| OrderedDicts.LastUpdatedOrderedDict.Set | pytutils/mappings.py:394-398 | assignment sets the entry and puts its key last, with the other keys in their order |
| OrderedDicts.MovedToEnd | pytutils/mappings.py:394-398 | after an assignment the key is last, the rest keep their relative order, and the size grows only for a new key |
| OrderedDicts.MultiDict.Set | pytutils/mappings.py:168-172 | a dict value for a present key bumps the counter and is stored under `key + str(counter)`, keeping the original entry; a non-string key then raises `TypeError`; otherwise a plain store |
| PyValues.NatToStr | pytutils/mappings.py:171 | `str(n)` is a non-empty string of decimal digits with no leading zero, and it denotes `n` |
| PyValues.NatToStrInjective | pytutils/mappings.py:171 | different counters give different digit strings, so each bump of `_unique` names a different key |
| Env.ParseLine | pytutils/env.py:28-39 | one line: a key and its unquoted value when the line matches `KEY=VALUE`, otherwise nothing; no contract of its own: `ParseLineAccepts` and `ParseLineRejects` characterise it both ways |
| Env.Unescape | pytutils/env.py:39 | `re.sub(r'\\(.)', r'\1', s)`, never longer than its input; `UnescapeEscape` states what it undoes |
| Env.ParseLineAccepts | pytutils/env.py:28-31 | a key, `=`, and a rest without a newline is read as that key and the unquoted rest |
| Env.ParseLineRejects | pytutils/env.py:28-31 | an accepted line is exactly a key, its first `=`, and a rest without a newline; every other line is skipped |
| Env.ParseKeyValue | pytutils/env.py:28-39 | `KEY=raw` is read as `KEY` and the unquoted raw value |
| Env.UnquoteSingle | pytutils/env.py:33-35 | surrounding single quotes are removed and nothing else changes, unless they held a double-quoted value |
| Env.UnescapeEscape | pytutils/env.py:39 | `re.sub(r'\\(.)', r'\1', s)` undoes backslash-escaping of backslashes and double quotes |
| Env.ParseDoubleQuoted | pytutils/env.py:37-39 | a value written escaped between double quotes is read back exactly |
| Env.ParseFormattedLine | pytutils/env.py:27-41 | a pair written as `KEY=VALUE`, for a value the quote steps leave alone, is read back |
| Env.ExampleLine | pytutils/env.py:27-41 | an unquoted value is read back as written |
| Env.ParseEnvFileContents | pytutils/env.py:26-41 | the pairs of the accepted lines, in line order; no contract of its own: `ParseAppend` and `ParseCount` characterise it |
| Env.ParseAppend | pytutils/env.py:27-41 | each line is read on its own: parsing a concatenation concatenates the results |
| Env.ParseCount | pytutils/env.py:27-41 | at most one pair per line, exactly one when every line is accepted, each from an accepted line |
| Env.AssignedIsLastValue | pytutils/env.py:59-62 | each key of the result holds the value of the last line that names it |
| Env.FirstSeenKeys | pytutils/env.py:57-62 | the ordered dict's keys are the keys named by some line, each once |
| Env.Expanded | pytutils/env.py:60 | the pairs in order, each key kept and each value passed through `expand` |
| Env.NewKeys | pytutils/env.py:64-65 | the keys of a list not already in a dict, in list order: exactly the keys that assigning them appends |
| Env.AssignBoth | pytutils/env.py:62-65 | `changes[k] = v`, then `write_environ[k] = v`: the target stays the changes laid over its original entries, with its new keys in the order the changes first got them |
| Env.LoadEnvFile | pytutils/env.py:44-67 | the returned ordered dict holds the expanded pairs, the last value winning and each key where it first appeared; `write_environ`, when given, gets the same entries over its own, keeps its key order, and gains its new keys at the end in first-seen order |
| Env.ParseUnquoted | pytutils/env.py:27-41 | three unquoted `KEY=VALUE` lines are read as their three pairs |
| Env.LoadUnquoted | pytutils/env.py:44-67 | three such lines with different keys load as three keys in line order, each with its expanded value |
| Env.LoadEnvFileExample | pytutils/env.py:19-24 | the docstring: `TEST`, `THISIS`, `YOLO` in order, with their values expanded |
| Iters.Running | pytutils/iters.py:21-26 | the running totals have the input's length and start with the first item |
| Iters.RunningStep | pytutils/iters.py:27-29 | each later total is `func(previous total, current item)` |
| Iters.RunningUnique | pytutils/iters.py:21-29 | those two rules determine the totals |
| Iters.RunningPrefix | pytutils/iters.py:21-29 | the totals of a prefix are a prefix of the totals, as a generator yields them |
| Iters.Accumulate | pytutils/iters.py:7-29 | the loop yields exactly the running totals, and nothing for an empty input |
| Iters.RunningSums | pytutils/iters.py:12-13 | `[1,2,3,4,5]` gives `[1, 3, 6, 10, 15]` under addition |
| Iters.RunningProducts | pytutils/iters.py:14-15 | `[1,2,3,4,5]` gives `[1, 2, 6, 24, 120]` under multiplication |
| Iters.ListIterator.Next | pytutils/iters.py:42 | `next(it, None)` gives the next item and advances by one, or `None` at the end |
| Iters.Consume | pytutils/iters.py:32-42 | `n=None` exhausts the iterator; otherwise it advances `min(n, remaining)` items; a negative `n` raises `ValueError` |
| Iters.DedupeIter | pytutils/iters.py:45-61 | the loop with the `done` set yields exactly the items whose hash was not seen earlier |
| Iters.DedupeIsSubsequence | pytutils/iters.py:53-61 | the output is a subsequence of the input, in input order |
| Iters.DedupeHashesDistinct | pytutils/iters.py:55-61 | no two output items share a hash |
| Iters.DedupeHashesCover | pytutils/iters.py:55-61 | the output's hashes are exactly the input's |
| Iters.DedupeKeepsFirst | pytutils/iters.py:55-61 | every item whose hash differs from all earlier items' is output |
| Iters.DedupeOnlyFirst | pytutils/iters.py:55-61 | every output item is the first input item with its hash |
| Tlds.JoinDots | pytutils/tlds.py:44 | `'.'.join(parts)`; a single part is itself; `SplitJoin`, `JoinSplit` and `RunningSuffix` characterise it |
| Tlds.SplitDots | pytutils/tlds.py:33 | `s.split('.')` gives at least one piece |
| Tlds.SplitJoin | pytutils/tlds.py:33 | it gives one piece more than there are dots, none holding a dot, and joining them with `.` gives back `s` |
| Tlds.JoinSplit | pytutils/tlds.py:33 | splitting dot-free labels joined with `.` gives back the labels |
| Tlds.JoinDom | pytutils/tlds.py:49-50 | `join_dom(a, b)` is `'.'.join([b, a])` |
| Tlds.Parts | pytutils/tlds.py:31-44 | the label list has the subdomain's labels plus 1, or plus 2 with `split_tld` and a suffix; without `split_tld` it ends in `domain.suffix`, or `domain` when there is no suffix |
| Tlds.PartsOfLabels | pytutils/tlds.py:31-44 | a subdomain of non-empty dot-free labels gives those labels, then the registered domain |
| Tlds.Reverse | pytutils/tlds.py:47 | `list.reverse()` puts item `i` at position `n - 1 - i` |
| Tlds.RunningSuffix | pytutils/tlds.py:47-53 | folding the reversed labels with `join_dom` gives, at step `j`, the last `j + 1` labels joined with `.` |
| Tlds.Fold | pytutils/tlds.py:47-55 | reverse, fold, reverse: entry `i` joins the labels from `i` on |
| Tlds.SplitDomainIntoSubdomains | pytutils/tlds.py:29-57 | the ladder has one entry per label, and entry `i` joins the labels from `i` on |
| Tlds.Ladder | pytutils/tlds.py:47-55 | the first entry is the whole name, each entry is its label, a dot and the next entry, and the last is the last label |
| Tlds.LadderOfLabels | pytutils/tlds.py:31-57 | for a subdomain of plain labels the ladder ends in the registered domain and steps one label at a time |
| Tlds.SplitDomainExample | pytutils/tlds.py:15-16 | `this.is.a.test.skywww.net` gives the five names from the whole name down to `skywww.net` |
| Sets.StampedEntries | pytutils/sets.py:34-46 | adding values in order records exactly those values, each with the time of its last add, and leaves other entries alone |
| Sets.TimedValueSet.constructor | pytutils/sets.py:14-23 | the set starts empty and adds every value of `seq` |
| Sets.TimedValueSet.Contains | pytutils/sets.py:25-26 | membership in the store, which is membership in the time table |
| Sets.TimedValueSet.Len | pytutils/sets.py:31-32 | the store's size, which is the number of recorded times |
| Sets.TimedValueSet.Iter | pytutils/sets.py:28-29 | every member once, in no particular order |
| Sets.TimedValueSet.Add | pytutils/sets.py:34-36 | the value joins the store and the current time replaces any earlier one; the time table keeps the store's keys |
| Sets.TimedValueSet.Discard | pytutils/sets.py:38-41 | the value leaves both store and time table; an absent value changes nothing |
| Sets.TimedValueSet.Update | pytutils/sets.py:43-46 | every value is added in order, each at its own clock reading |
| Sets.TimedValueSet.AddedAt | pytutils/sets.py:48-49 | a member's recorded time, or the default for a non-member |

## Left out

- Python's `str.format` is modelled only for `{name}` placeholders. `{{`, format specs, conversions, indexing and attribute access inside braces are not modelled, and neither are the errors `.format` raises for them.
- FormatDict.Format: every `{` or `}` that is not part of a `{name}` placeholder, with `name` a run of word characters, is rendered as literal text, whereas Python's `.format` raises on it. A field whose name is not a word run (`{a-b}`, `{ x }`, `{"user": ...}`) raises `KeyError`. An empty `{}` or an all-digit name such as `{0}` is a positional field and raises `IndexError`; the model looks an all-digit name up as a key. A single `{` or `}` raises `ValueError`.
- FormatDict.FormatDictRecursively: the promise to raise exactly when `raise_unresolvable` is set and a key stays unresolved holds only for mappings whose template values have no brace outside a `{name}` placeholder. For a value with such a brace, Python raises at its `.format` whatever `raise_unresolvable` says; the model renders it instead.
- `\w` is modelled as ASCII letters, digits and `_`. Python's `\w` also matches non-ASCII word characters.
- `str()` of a value that is not a string or bool is carried as given text, not computed.
- `os.path.expandvars` and `os.path.expanduser` are an uninterpreted function. The process environment and home directory are not modelled.
- `load_env_file`'s default target `os.environ` is not modelled. The caller passes the target dict, or `null` for `None`.
- Env.LoadEnvFileExample: uses `write_environ=None` rather than the docstring's `dict()`. The returned dict is the same in both cases.
- Generators are modelled as the lists they yield.
- Proxies.PrefixedProxy.Iter: an error raised part-way through iteration is returned for the whole list. The keys yielded before it are not returned.
- A non-string key is a single `OKey` case. Every string operation on it (`prefix + key`, `key[n:]`, `key += str(n)`) is modelled as `TypeError`, whatever the object's type supports.
- The `fancy_repr`/`dictify_repr` options and all `__repr__` methods are not modelled.
- `ProcessLocal`'s `mapping_factory` is always `dict`. `os.getpid()` is a parameter.
- OrderedDicts.MultiDict.Set: only the entries are modelled, not the `OrderedDict` key order. `dict.__setitem__` bypasses `OrderedDict`'s own order bookkeeping, and the model does not say what order results.
- The package's other helpers (attribute dicts, the `dedupe` decorator, logging, file and queue helpers and the rest) are not modelled.
- `split_domain_into_subdomains` is not modelled before its label list: the `tldextract` lookup, `ensure_decoded_text` and the TTL cache. The model takes the lookup's `(subdomain, domain, suffix)` as inputs.
- `time.time()` is a parameter: one clock reading per `add`.
- pytutils/sets.py imports `consume` from `.iterators`, a module the package does not have, and calls `time.time()` without importing `time`. As shipped, the module fails to import, and `add` would raise `NameError`. The model describes the evident intent.
- `TimedValueSet`'s `container_factory` and `added_at_mapping_factory` are always `set` and `dict`.
- Iters.Consume: works on an iterator over a list. `islice`'s upper bound of `sys.maxsize` on `n` is not modelled.
- Iters.DedupeIter: `hashfunc` is a total function and is assumed to behave the same on every call.

## Findings

| source | as written | input that shows it | evidently intended | confidence | as-written member | corrected member |
|---|---|---|---|---|---|---|
| utils.py:150-152 | `__setitem__` stores under `key[len(prefix):]`, while `__getitem__`, `__contains__` and `__delitem__` use `prefix + key` (and the same through `__key_trans__` at pytutils/mappings.py:143-146) | prefix `p_`, `proxy['x'] = v` then `proxy['x']`: the write goes to `''`, the read asks for `'p_x'` and raises `KeyError` | a store under `prefix + key`, so a written key reads back | high, not executed | Proxies.PrefixedProxy.Set, Proxies.SetThenGetAsWritten | Proxies.PrefixedProxy.SetPrefixed, Proxies.SetThenGetPrefixed |
| pytutils/mappings.py:104-106 | `HookableProxyMutableMapping.__iter__` calls `self.__key_remove_prefix__`, which only the prefixed subclass defines | a `ProcessLocal` holding `'test'`: `list(plocal)` raises `AttributeError` | the identity hook, yielding the allowed keys as they are | high, not executed | Proxies.ProcessLocal.Iter, Proxies.ProcessLocalIterAsWritten | Proxies.ProcessLocal.IterKeys |

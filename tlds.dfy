/**
 * The list-building half of `split_domain_into_subdomains` in
 * pytutils/tlds.py: from a domain already split by a public-suffix lookup
 * into subdomain, registered name and suffix, the list of ever shorter
 * dotted names that end in the registered domain.
 */
module Tlds {
  import opened Iters

  /** `'.'.join(parts)`. */
  function JoinDots(parts: seq<string>): (r: string)
    ensures |parts| == 1 ==> r == parts[0]
  {
    if parts == [] then ""
    else if |parts| == 1 then parts[0]
    else parts[0] + "." + JoinDots(parts[1..])
  }

  /** `s.split('.')`: the pieces between the dots, empty ones included. */
  function SplitDots(s: string): (r: seq<string>)
    ensures |r| >= 1
  {
    if s == [] then [""]
    else
      var rest := SplitDots(s[1..]);
      if s[0] == '.' then [""] + rest else [[s[0]] + rest[0]] + rest[1..]
  }

  /** The number of dots in `s`. */
  function Dots(s: string): nat
  {
    if s == [] then 0 else (if s[0] == '.' then 1 else 0) + Dots(s[1..])
  }

  /** Splitting gives one more piece than there are dots, none holding a dot,
      and joining the pieces gives back the string. */
  lemma {:induction false} SplitJoin(s: string)
    ensures |SplitDots(s)| == Dots(s) + 1
    ensures forall i :: 0 <= i < |SplitDots(s)| ==> '.' !in SplitDots(s)[i]
    ensures JoinDots(SplitDots(s)) == s
  {
    if s != [] {
      SplitJoin(s[1..]);
      var rest := SplitDots(s[1..]);
      if s[0] == '.' {
        assert ([""] + rest)[1..] == rest;
      } else {
        var r := [[s[0]] + rest[0]] + rest[1..];
        assert r[1..] == rest[1..];
        assert forall i :: 1 <= i < |r| ==> r[i] == rest[i];
        if |rest| > 1 {
          assert JoinDots(rest) == rest[0] + "." + JoinDots(rest[1..]);
        }
      }
    }
  }

  /** A dot-free prefix only lengthens the first piece. */
  lemma {:induction false} SplitPrefix(a: string, rest: string)
    requires '.' !in a
    ensures SplitDots(a + rest) == [a + SplitDots(rest)[0]] + SplitDots(rest)[1..]
  {
    if a == [] {
      var pieces := SplitDots(rest);
      assert a + rest == rest && a + pieces[0] == pieces[0] && pieces == [pieces[0]] + pieces[1..];
    } else {
      assert (a + rest)[1..] == a[1..] + rest;
      SplitPrefix(a[1..], rest);
      assert [a[0]] + (a[1..] + SplitDots(rest)[0]) == a + SplitDots(rest)[0];
    }
  }

  /** Joining dot-free labels and splitting again gives the labels back. */
  lemma {:induction false} JoinSplit(labels: seq<string>)
    requires labels != [] && forall i :: 0 <= i < |labels| ==> '.' !in labels[i]
    ensures SplitDots(JoinDots(labels)) == labels
  {
    if |labels| == 1 {
      SplitPrefix(labels[0], "");
      assert labels[0] + "" == labels[0];
    } else {
      var tail := labels[1..];
      JoinSplit(tail);
      SplitPrefix(labels[0], "." + JoinDots(tail));
      assert SplitDots("." + JoinDots(tail)) == [""] + SplitDots(JoinDots(tail));
      assert labels[0] + ("." + JoinDots(tail)) == labels[0] + "." + JoinDots(tail);
      assert labels[0] + "" == labels[0];
    }
  }

  /** The labels of a subdomain made of non-empty dot-free labels are those
      labels, followed by the registered domain. */
  lemma PartsOfLabels(labels: seq<string>, domain: string, suffix: string)
    requires labels != [] && forall i :: 0 <= i < |labels| ==> labels[i] != [] && '.' !in labels[i]
    ensures Parts(JoinDots(labels), domain, suffix, false) ==
              labels + [if suffix == [] then domain else domain + "." + suffix]
  {
    JoinSplit(labels);
    if |labels| > 1 {
      assert JoinDots(labels) == labels[0] + "." + JoinDots(labels[1..]);
    }
  }

  /** `join_dom(a, b)`: the next label in front of the name built so far. */
  function JoinDom(a: string, b: string): (r: string)
    ensures r == JoinDots([b, a])
  {
    b + "." + a
  }

  /** The labels the ladder is built from: the subdomain's labels, then
      either the domain and suffix as separate labels or the registered
      domain `domain.suffix` as one (just `domain` when there is no suffix). */
  function Parts(subdomain: string, domain: string, suffix: string, splitTld: bool): (r: seq<string>)
    ensures |r| == (if subdomain == [] then 0 else Dots(subdomain) + 1) + (if splitTld && suffix != [] then 2 else 1)
    ensures !splitTld ==> r[|r| - 1] == if suffix == [] then domain else domain + "." + suffix
  {
    SplitJoin(subdomain);
    var labels := if subdomain == [] then [] else SplitDots(subdomain);
    var registered := if suffix == [] then [domain] else [domain, suffix];
    if splitTld then labels + registered else labels + [JoinDots(registered)]
  }

  /** The items of `xs` back to front. */
  function Reversed<T>(xs: seq<T>): (r: seq<T>)
    ensures |r| == |xs|
  {
    seq(|xs|, i requires 0 <= i < |xs| => xs[|xs| - 1 - i])
  }

  /** `list.reverse()`: swaps the two ends, moving inwards. */
  method Reverse<T>(xs: seq<T>) returns (r: seq<T>)
    ensures r == Reversed(xs)
  {
    r := xs;
    var i := 0;
    while i < |r| / 2
      invariant 0 <= i <= |r| / 2 && |r| == |xs|
      invariant forall j :: 0 <= j < i ==> r[j] == xs[|xs| - 1 - j] && r[|xs| - 1 - j] == xs[j]
      invariant forall j :: i <= j < |xs| - i ==> r[j] == xs[j]
    {
      var tmp := r[i];
      r := r[i := r[|r| - 1 - i]];
      r := r[|r| - 1 - i := tmp];
      i := i + 1;
    }
  }

  /** The `j`-th running total of the reversed labels joins the last `j + 1`
      labels. */
  lemma {:induction false} RunningSuffix(parts: seq<string>, j: nat)
    requires j < |parts|
    ensures Running(Reversed(parts), JoinDom)[j] == JoinDots(parts[|parts| - 1 - j..])
  {
    var n := |parts|;
    if j == 0 {
      assert parts[n - 1..] == [parts[n - 1]];
    } else {
      RunningSuffix(parts, j - 1);
      RunningStep(Reversed(parts), JoinDom);
      assert parts[n - 1 - j..][1..] == parts[n - j..];
    }
  }

  /** Reverse, fold with `join_dom`, reverse again: entry `i` joins the
      labels from `i` on. */
  method Fold(parts: seq<string>) returns (domains: seq<string>)
    ensures |domains| == |parts|
    ensures forall i :: 0 <= i < |domains| ==> domains[i] == JoinDots(parts[i..])
  {
    var reversed := Reverse(parts);
    var totals := Accumulate(reversed, JoinDom);
    domains := Reverse(totals);
    forall i | 0 <= i < |domains| ensures domains[i] == JoinDots(parts[i..]) {
      RunningSuffix(parts, |parts| - 1 - i);
    }
  }

  /** `split_domain_into_subdomains(domain, split_tld)` after the suffix
      lookup: the labels are collected, reversed, folded with `join_dom` and
      reversed again, so entry `i` joins the labels from `i` on. */
  method SplitDomainIntoSubdomains(subdomain: string, domain: string, suffix: string, splitTld: bool)
    returns (domains: seq<string>)
    ensures |domains| == |Parts(subdomain, domain, suffix, splitTld)|
    ensures forall i :: 0 <= i < |domains| ==> domains[i] == JoinDots(Parts(subdomain, domain, suffix, splitTld)[i..])
  {
    domains := [];
    if subdomain != [] {
      domains := domains + SplitDots(subdomain);
    }
    var registered := [domain];
    if suffix != [] {
      registered := registered + [suffix];
    }
    if splitTld {
      domains := domains + registered;
    } else {
      domains := domains + [JoinDots(registered)];
    }
    assert domains == Parts(subdomain, domain, suffix, splitTld);
    domains := Fold(domains);
  }

  /** The ladder's shape: the first entry is the whole name, each entry is
      its own label, a dot and the next entry, and the last is the last
      label. */
  lemma Ladder(parts: seq<string>, ladder: seq<string>)
    requires |ladder| == |parts| > 0
    requires forall i :: 0 <= i < |ladder| ==> ladder[i] == JoinDots(parts[i..])
    ensures ladder[0] == JoinDots(parts)
    ensures forall i :: 0 <= i < |ladder| - 1 ==> ladder[i] == parts[i] + "." + ladder[i + 1]
    ensures ladder[|ladder| - 1] == parts[|parts| - 1]
  {
    assert parts[0..] == parts;
    assert parts[|parts| - 1..] == [parts[|parts| - 1]];
    forall i | 0 <= i < |ladder| - 1 ensures ladder[i] == parts[i] + "." + ladder[i + 1] {
      assert parts[i..][1..] == parts[i + 1..];
    }
  }

  /** The ladder for a subdomain of non-empty dot-free labels without
      `split_tld`: it ends in the registered domain, and each entry before
      is its label, a dot and the next entry. */
  method LadderOfLabels(labels: seq<string>, domain: string, suffix: string) returns (ladder: seq<string>)
    requires labels != [] && forall i :: 0 <= i < |labels| ==> labels[i] != [] && '.' !in labels[i]
    ensures |ladder| == |labels| + 1
    ensures ladder[|labels|] == if suffix == [] then domain else domain + "." + suffix
    ensures forall i :: 0 <= i < |labels| ==> ladder[i] == labels[i] + "." + ladder[i + 1]
  {
    PartsOfLabels(labels, domain, suffix);
    ladder := SplitDomainIntoSubdomains(JoinDots(labels), domain, suffix, false);
    Ladder(Parts(JoinDots(labels), domain, suffix, false), ladder);
  }

  /** The docstring example: `this.is.a.test.skywww.net`, which the suffix
      lookup splits into subdomain `this.is.a.test`, domain `skywww` and
      suffix `net`. */
  method SplitDomainExample() returns (ladder: seq<string>)
    ensures ladder == ["this.is.a.test.skywww.net", "is.a.test.skywww.net", "a.test.skywww.net",
                       "test.skywww.net", "skywww.net"]
  {
    var labels := ["this", "is", "a", "test"];
    ladder := LadderOfLabels(labels, "skywww", "net");
    assert "test" + "." + "skywww.net" == "test.skywww.net";
    assert "a" + "." + "test.skywww.net" == "a.test.skywww.net";
    assert "is" + "." + "a.test.skywww.net" == "is.a.test.skywww.net";
    assert "this" + "." + "is.a.test.skywww.net" == "this.is.a.test.skywww.net";
    assert ladder[4] == "skywww.net";
    assert ladder[3] == "test.skywww.net";
    assert ladder[2] == "a.test.skywww.net";
    assert ladder[1] == "is.a.test.skywww.net";
    assert ladder[0] == "this.is.a.test.skywww.net";
  }
}

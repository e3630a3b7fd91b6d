/** compile_policy: both ecosystems and the upstream document, all or nothing. */
module Compile {
  import opened Base
  import opened Text
  import opened Rules
  import NpmCompiler
  import NpmDocument
  import NpmEmit
  import NpmFilter
  import PypiCompiler
  import YamlScalar

  datatype Defaults = Defaults(action: Action, ecosystems: map<string, Action>) {
    function ForEcosystem(ecosystem: string): Action {
      if ecosystem in ecosystems then ecosystems[ecosystem] else action
    }
  }

  datatype Policy = Policy(defaults: Defaults, rules: seq<Rule>, minAge: string, osvMaliciousPackages: bool)

  datatype Artifacts = Artifacts(npmYaml: string, pypiConstraints: string, upstreamYaml: string, minAge: string)

  ghost predicate Compilable(p: Policy, npm: Adapter, pypi: PypiCompiler.Dialect) {
    && Accepted(p.rules, npm) && Accepted(p.rules, pypi.a)
    && p.defaults.ForEcosystem("npm").Allow?
    && NpmCompiler.Resolvable(BucketsOf(p.rules, npm), npm)
    && PypiCompiler.Emittable(pypi, BucketsOf(p.rules, pypi.a), p.defaults.ForEcosystem("pypi").Deny?)
  }

  function NpmYaml(rules: seq<Rule>, npm: Adapter, minAge: string): string
    requires Accepted(rules, npm)
  {
    NpmDocument.Document(NpmEmit.DocOf(NpmCompiler.Resolved(BucketsOf(rules, npm)), minAge))
  }

  ghost function ArtifactsOf(p: Policy, npm: Adapter, pypi: PypiCompiler.Dialect): Artifacts
    requires Compilable(p, npm, pypi)
  {
    var denyAll := p.defaults.ForEcosystem("pypi").Deny?;
    Artifacts(
      NpmYaml(p.rules, npm, p.minAge),
      PypiCompiler.TextOf(pypi, PypiCompiler.PlanOf(BucketsOf(p.rules, pypi.a), denyAll), denyAll),
      NpmDocument.Document(NpmFilter.NpmDoc(p.minAge, None, None)),
      p.minAge)
  }

  method CompilePolicy(p: Policy, npm: Adapter, pypi: PypiCompiler.Dialect) returns (r: Result<Artifacts, PolicyError>)
    ensures r.Ok? <==> Compilable(p, npm, pypi)
    ensures r.Ok? ==> r.value == ArtifactsOf(p, npm, pypi)
    ensures r.Ok? ==>
      (if "npm" in p.defaults.ecosystems then p.defaults.ecosystems["npm"] else p.defaults.action).Allow?
  {
    var npmRules := Classify(p.rules, npm);
    if npmRules.Err? { return Err(npmRules.error); }
    var pypiRules := Classify(p.rules, pypi.a);
    if pypiRules.Err? { return Err(pypiRules.error); }
    ExactsAreFaithful(p.rules, npm);
    ExactsAreFaithful(p.rules, pypi.a);
    BucketRangesValid(p.rules, npm);
    var npmYaml := NpmEmit.EmitNpm(npmRules.value, npm, p.minAge, p.defaults.ForEcosystem("npm"));
    if npmYaml.Err? { return Err(npmYaml.error); }
    var constraints := PypiCompiler.EmitPypi(pypi, pypiRules.value, p.defaults.ForEcosystem("pypi"));
    if constraints.Err? { return Err(constraints.error); }
    var upstream := "upstream:\n" + "  min_age: " + YamlScalar.Quote(p.minAge) + "\n";
    UpstreamIsDocument(p.minAge);
    return Ok(Artifacts(npmYaml.value, constraints.value, upstream, p.minAge));
  }

  lemma UpstreamIsDocument(minAge: string)
    ensures NpmDocument.Document(NpmFilter.NpmDoc(minAge, None, None))
            == "upstream:\n" + "  min_age: " + YamlScalar.Quote(minAge) + "\n"
  {
    var lines := ["upstream:", "  min_age: " + YamlScalar.Quote(minAge)];
    assert NpmDocument.DocLines(NpmFilter.NpmDoc(minAge, None, None)) == lines;
    assert lines[1..] == [lines[1]];
    assert JoinLines(lines) == lines[0] + "\n" + lines[1];
  }

  /** The upstream document carries the policy's minimum age to the filter's reader. */
  lemma UpstreamRoundTrip(p: Policy, npm: Adapter, pypi: PypiCompiler.Dialect)
    requires Compilable(p, npm, pypi)
    ensures NpmDocument.ReadDocument(ArtifactsOf(p, npm, pypi).upstreamYaml)
         == Some(NpmFilter.NpmDoc(p.minAge, None, None))
  {
    NpmDocument.DocumentRoundTrip(NpmFilter.NpmDoc(p.minAge, None, None));
  }
}

/** The order of the rules does not matter. */
module RuleOrder {
  import opened Base
  import opened Text
  import opened Rules
  import opened Compile
  import NpmCompiler
  import NpmDocument
  import NpmEmit
  import PypiCompiler

  /******* Sorting is canonical *******/

  lemma RemoveOne<T>(xs: seq<T>, k: nat)
    requires k < |xs|
    ensures multiset(xs[..k] + xs[k + 1..]) == multiset(xs) - multiset{xs[k]}
    ensures xs == xs[..k] + ([xs[k]] + xs[k + 1..])
  {
    assert xs == xs[..k] + ([xs[k]] + xs[k + 1..]);
  }

  lemma TextsWithout(es: seq<RangeDeny>, k: nat)
    requires k < |es|
    ensures multiset(Texts(es)) == multiset(Texts(es[..k] + es[k + 1..])) + multiset{es[k].text}
  {
    assert Texts(es[..k] + es[k + 1..]) == Texts(es[..k]) + Texts(es[k + 1..]);
    assert Texts(es) == Texts(es[..k]) + ([es[k].text] + Texts(es[k + 1..]));
  }

  lemma {:induction false} TextsOfPermutation(ds: seq<RangeDeny>, es: seq<RangeDeny>)
    requires multiset(ds) == multiset(es)
    ensures multiset(Texts(ds)) == multiset(Texts(es))
  {
    assert |ds| == |multiset(ds)| == |es|;
    if ds != [] {
      var last := |ds| - 1;
      assert ds[last] in multiset(es);
      var k :| 0 <= k < |es| && es[k] == ds[last];
      RemoveOne(ds, last);
      RemoveOne(es, k);
      TextsOfPermutation(ds[..last] + ds[last + 1..], es[..k] + es[k + 1..]);
      TextsWithout(ds, last);
      TextsWithout(es, k);
    }
  }

  predicate InOrder(ts: seq<string>) { forall i, j | 0 <= i < j < |ts| :: !Before(ts[j], ts[i]) }

  lemma FirstTextsEqual(ts: seq<string>, us: seq<string>)
    requires InOrder(ts) && InOrder(us) && multiset(ts) == multiset(us) && ts != [] && us != []
    ensures ts[0] == us[0]
  {
    assert ts[0] in multiset(us) && us[0] in multiset(ts);
    var i :| 0 <= i < |us| && us[i] == ts[0];
    var j :| 0 <= j < |ts| && ts[j] == us[0];
    BeforeTotal(ts[0], us[0]);
  }

  lemma TailsAgree(ts: seq<string>, us: seq<string>)
    requires multiset(ts) == multiset(us) && ts != [] && us != [] && ts[0] == us[0]
    ensures multiset(ts[1..]) == multiset(us[1..])
  {
    assert ts == [ts[0]] + ts[1..] && us == [us[0]] + us[1..];
    assert multiset(ts[1..]) == multiset(ts) - multiset{ts[0]};
  }

  lemma {:induction false} OrderedTextsEqual(ts: seq<string>, us: seq<string>)
    requires InOrder(ts) && InOrder(us) && multiset(ts) == multiset(us)
    ensures ts == us
  {
    assert |ts| == |multiset(ts)| == |us|;
    if ts != [] {
      FirstTextsEqual(ts, us);
      TailsAgree(ts, us);
      OrderedTextsEqual(ts[1..], us[1..]);
      assert ts == [ts[0]] + ts[1..] && us == [us[0]] + us[1..];
    }
  }

  /** Sorted by text, permuted lists have the same texts in the same order. */
  lemma SortedTextsAgree(ds: seq<RangeDeny>, es: seq<RangeDeny>)
    requires multiset(ds) == multiset(es)
    ensures Texts(SortByText(ds)) == Texts(SortByText(es))
  {
    SortFacts(ds);
    SortFacts(es);
    TextsOfPermutation(SortByText(ds), SortByText(es));
    OrderedTextsEqual(Texts(SortByText(ds)), Texts(SortByText(es)));
  }

  ghost predicate TextsDecide(ds: seq<RangeDeny>) {
    forall d, e | d in ds && e in ds :: d.text == e.text ==> d == e
  }

  /** They are the same lists when equal texts carry equal reasons. */
  lemma SortedAgree(ds: seq<RangeDeny>, es: seq<RangeDeny>)
    requires multiset(ds) == multiset(es) && TextsDecide(ds)
    ensures SortByText(ds) == SortByText(es)
  {
    SortedTextsAgree(ds, es);
    SortFacts(ds);
    SortFacts(es);
    var s, t := SortByText(ds), SortByText(es);
    assert |s| == |Texts(s)| == |t|;
    forall i | 0 <= i < |s| ensures s[i] == t[i] {
      assert Texts(s)[i] == Texts(t)[i];
      assert s[i] in multiset(s) && t[i] in multiset(t);
      assert s[i] in ds && t[i] in multiset(ds);
      assert t[i] in ds;
    }
  }

  /******* Permuted rules fill the same buckets *******/

  lemma {:induction false} RangeDeniesAppend(xs: seq<Rule>, ys: seq<Rule>, a: Adapter, n: string)
    ensures RangeDenies(xs + ys, a, n) == RangeDenies(xs, a, n) + RangeDenies(ys, a, n)
  {
    if ys == [] {
      assert xs + ys == xs;
    } else {
      RangeDeniesAppend(xs, ys[..|ys| - 1], a, n);
      assert (xs + ys)[..|xs + ys| - 1] == xs + ys[..|ys| - 1];
    }
  }

  lemma {:induction false} RangeDeniesPermuted(rules: seq<Rule>, perm: seq<Rule>, a: Adapter, n: string)
    requires multiset(rules) == multiset(perm)
    ensures multiset(RangeDenies(rules, a, n)) == multiset(RangeDenies(perm, a, n))
  {
    assert |rules| == |multiset(rules)| == |perm|;
    if rules != [] {
      var r, front := rules[|rules| - 1], rules[..|rules| - 1];
      assert rules == front + [r];
      assert r in multiset(perm);
      var k :| 0 <= k < |perm| && perm[k] == r;
      RemoveOne(perm, k);
      RangeDeniesPermuted(front, perm[..k] + perm[k + 1..], a, n);
      RangeDeniesAppend(front, [r], a, n);
      RangeDeniesWithout(perm, k, a, n);
    }
  }

  lemma RangeDeniesWithout(rules: seq<Rule>, k: nat, a: Adapter, n: string)
    requires k < |rules|
    ensures multiset(RangeDenies(rules, a, n))
         == multiset(RangeDenies(rules[..k] + rules[k + 1..], a, n)) + multiset(RangeDenies([rules[k]], a, n))
  {
    RemoveOne(rules, k);
    RangeDeniesAppend(rules[..k], [rules[k]] + rules[k + 1..], a, n);
    RangeDeniesAppend([rules[k]], rules[k + 1..], a, n);
    RangeDeniesAppend(rules[..k], rules[k + 1..], a, n);
  }

  ghost predicate SameButOrder(b: Buckets, c: Buckets) {
    && b.nsDenies == c.nsDenies && b.nsAllows == c.nsAllows && b.wholeAllows == c.wholeAllows
    && b.exactAllows == c.exactAllows && b.whole.Keys == c.whole.Keys && b.ranges.Keys == c.ranges.Keys
    && forall n | n in b.ranges :: multiset(b.ranges[n]) == multiset(c.ranges[n])
  }

  lemma SameMembers(rules: seq<Rule>, perm: seq<Rule>)
    requires multiset(rules) == multiset(perm)
    ensures forall r :: r in rules <==> r in perm
  {
    forall r ensures r in rules <==> r in perm {
      assert r in rules <==> r in multiset(rules);
      assert r in perm <==> r in multiset(perm);
    }
  }

  lemma SameSets(rules: seq<Rule>, perm: seq<Rule>, a: Adapter)
    requires multiset(rules) == multiset(perm) && Accepted(rules, a) && Accepted(perm, a)
    ensures var b, c := BucketsOf(rules, a), BucketsOf(perm, a);
            && b.nsDenies == c.nsDenies && b.nsAllows == c.nsAllows && b.wholeAllows == c.wholeAllows
            && b.whole.Keys == c.whole.Keys
  {
    SameMembers(rules, perm);
    ScopesAreFaithful(rules, a);
    ScopesAreFaithful(perm, a);
    WholesAreFaithful(rules, a);
    WholesAreFaithful(perm, a);
    forall ns, x ensures ScopeRule(rules, a, ns, x) <==> ScopeRule(perm, a, ns, x) {}
    forall n, x ensures WholeRule(rules, a, n, x) <==> WholeRule(perm, a, n, x) {}
  }

  lemma SameExacts(rules: seq<Rule>, perm: seq<Rule>, a: Adapter)
    requires multiset(rules) == multiset(perm) && Accepted(rules, a) && Accepted(perm, a)
    ensures BucketsOf(rules, a).exactAllows == BucketsOf(perm, a).exactAllows
  {
    SameMembers(rules, perm);
    ExactsAreFaithful(rules, a);
    ExactsAreFaithful(perm, a);
    var b, c := BucketsOf(rules, a), BucketsOf(perm, a);
    forall n ensures ExactsOf(b, n) == ExactsOf(c, n) {
      forall e ensures e in ExactsOf(b, n) <==> e in ExactsOf(c, n) {
        assert ExactAllowed(rules, a, n, e) <==> ExactAllowed(perm, a, n, e);
      }
    }
    assert forall n :: n in b.exactAllows <==> ExactsOf(b, n) != {};
    assert forall n :: n in c.exactAllows <==> ExactsOf(c, n) != {};
    assert b.exactAllows.Keys == c.exactAllows.Keys;
  }

  lemma PermutedBuckets(rules: seq<Rule>, perm: seq<Rule>, a: Adapter)
    requires multiset(rules) == multiset(perm)
    ensures Accepted(rules, a) <==> Accepted(perm, a)
    ensures Accepted(rules, a) ==> SameButOrder(BucketsOf(rules, a), BucketsOf(perm, a))
  {
    SameMembers(rules, perm);
    if Accepted(rules, a) {
      SameSets(rules, perm, a);
      SameExacts(rules, perm, a);
      RangesAreFaithful(rules, a);
      RangesAreFaithful(perm, a);
      var b, c := BucketsOf(rules, a), BucketsOf(perm, a);
      forall n ensures multiset(RangesOf(b, n)) == multiset(RangesOf(c, n)) { RangeDeniesPermuted(rules, perm, a, n); }
      assert forall n :: n in b.ranges <==> multiset(RangesOf(b, n)) != multiset{};
      assert forall n :: n in c.ranges <==> multiset(RangesOf(c, n)) != multiset{};
    }
  }

  /******* pypi: the same text, always *******/

  lemma SameRangeLine(d: PypiCompiler.Dialect, n: string, ds: seq<RangeDeny>, es: seq<RangeDeny>)
    requires multiset(ds) == multiset(es)
    ensures PypiCompiler.Complementable(d, SortByText(ds)) <==> PypiCompiler.Complementable(d, SortByText(es))
    ensures PypiCompiler.Complementable(d, SortByText(ds)) ==>
      PypiCompiler.RangeSpecs(d, ds) == PypiCompiler.RangeSpecs(d, es)
    ensures PypiCompiler.RangeLineOk(d, n, ds) <==> PypiCompiler.RangeLineOk(d, n, es)
  {
    SortedTextsAgree(ds, es);
    var s, t := SortByText(ds), SortByText(es);
    assert |s| == |Texts(s)| == |t|;
    assert forall i | 0 <= i < |s| :: Texts(s)[i] == s[i].text && Texts(t)[i] == t[i].text;
  }

  lemma PypiOrderIrrelevant(d: PypiCompiler.Dialect, b: Buckets, c: Buckets, denyAll: bool)
    requires SameButOrder(b, c)
    ensures PypiCompiler.Emittable(d, b, denyAll) <==> PypiCompiler.Emittable(d, c, denyAll)
    ensures PypiCompiler.Emittable(d, b, denyAll) ==>
              PypiCompiler.TextOf(d, PypiCompiler.PlanOf(b, denyAll), denyAll)
              == PypiCompiler.TextOf(d, PypiCompiler.PlanOf(c, denyAll), denyAll)
  {
    var p, q := PypiCompiler.PlanOf(b, denyAll), PypiCompiler.PlanOf(c, denyAll);
    assert PypiCompiler.Plannable(b, denyAll) <==> PypiCompiler.Plannable(c, denyAll);
    assert p.whole == q.whole && p.bare == q.bare && p.exact == q.exact && p.ranges.Keys == q.ranges.Keys;
    forall n | n in p.ranges ensures multiset(p.ranges[n]) == multiset(q.ranges[n]) {}
    SamePlans(d, p, q, denyAll);
  }

  lemma SamePlans(d: PypiCompiler.Dialect, p: PypiCompiler.Plan, q: PypiCompiler.Plan, denyAll: bool)
    requires p.whole == q.whole && p.bare == q.bare && p.exact == q.exact && p.ranges.Keys == q.ranges.Keys
    requires forall n | n in p.ranges :: multiset(p.ranges[n]) == multiset(q.ranges[n])
    ensures PypiCompiler.PlanOk(d, p, denyAll) <==> PypiCompiler.PlanOk(d, q, denyAll)
    ensures PypiCompiler.PlanOk(d, p, denyAll) ==>
      PypiCompiler.TextOf(d, p, denyAll) == PypiCompiler.TextOf(d, q, denyAll)
  {
    forall n | n in p.ranges
      ensures PypiCompiler.RangeLineOk(d, n, p.ranges[n]) <==> PypiCompiler.RangeLineOk(d, n, q.ranges[n])
      ensures PypiCompiler.RangeLineOk(d, n, p.ranges[n]) ==>
        PypiCompiler.RangeSpecs(d, p.ranges[n]) == PypiCompiler.RangeSpecs(d, q.ranges[n])
    {
      SameRangeLine(d, n, p.ranges[n], q.ranges[n]);
    }
    if !denyAll && PypiCompiler.PlanOk(d, p, denyAll) {
      var names := SortedKeys(p.ranges);
      assert names == SortedKeys(q.ranges);
      assert forall i | 0 <= i < |names| :: names[i] in names;
      assert forall i | 0 <= i < |names| :: PypiCompiler.RangeLineOk(d, names[i], p.ranges[names[i]]);
      assert PypiCompiler.RangeLines(d, names, p.ranges) == PypiCompiler.RangeLines(d, names, q.ranges);
    }
  }

  /******* npm: the same text, if duplicate denies agree on their reason *******/

  /** Denies of one package and one versions text carry one reason. */
  ghost predicate ReasonsAgree(rules: seq<Rule>, a: Adapter) {
    forall r, s, n | r in rules && s in rules && About(r, a, n) && About(s, a, n) && r.action.Deny? && s.action.Deny? ::
      r.versions == s.versions ==> r.reason == s.reason
  }

  /** A whole deny's reason is that of one of its rules. */
  lemma {:induction false} WholeReason(rules: seq<Rule>, a: Adapter, n: string)
    requires Accepted(rules, a) && n in BucketsOf(rules, a).whole
    ensures exists r :: r in rules && IsWhole(r, a, n, Deny) && r.reason == BucketsOf(rules, a).whole[n]
  {
    var front, last := rules[..|rules| - 1], rules[|rules| - 1];
    assert last in rules;
    if !IsWhole(last, a, n, Deny) {
      assert n in BucketsOf(front, a).whole && BucketsOf(rules, a).whole[n] == BucketsOf(front, a).whole[n];
      WholeReason(front, a, n);
      var r :| r in front && IsWhole(r, a, n, Deny) && r.reason == BucketsOf(front, a).whole[n];
      assert r in rules;
    }
  }

  lemma WholeReasons(rules: seq<Rule>, a: Adapter)
    requires Accepted(rules, a)
    ensures forall n | n in BucketsOf(rules, a).whole ::
              exists r :: r in rules && IsWhole(r, a, n, Deny) && r.reason == BucketsOf(rules, a).whole[n]
  {
    forall n | n in BucketsOf(rules, a).whole
      ensures exists r :: r in rules && IsWhole(r, a, n, Deny) && r.reason == BucketsOf(rules, a).whole[n]
    {
      WholeReason(rules, a, n);
    }
  }

  lemma SameWholes(rules: seq<Rule>, perm: seq<Rule>, a: Adapter)
    requires multiset(rules) == multiset(perm) && Accepted(rules, a) && Accepted(perm, a) && ReasonsAgree(rules, a)
    ensures BucketsOf(rules, a).whole == BucketsOf(perm, a).whole
  {
    var b, c := BucketsOf(rules, a), BucketsOf(perm, a);
    SameSets(rules, perm, a);
    SameMembers(rules, perm);
    WholeReasons(rules, a);
    WholeReasons(perm, a);
    forall n | n in b.whole ensures b.whole[n] == c.whole[n] {
      var r :| r in rules && IsWhole(r, a, n, Deny) && r.reason == b.whole[n];
      var s :| s in perm && IsWhole(s, a, n, Deny) && s.reason == c.whole[n];
      assert About(r, a, n) && About(s, a, n);
    }
  }

  lemma {:induction false} RangeDeniesFrom(rules: seq<Rule>, a: Adapter, n: string)
    ensures forall d | d in RangeDenies(rules, a, n) ::
              exists r :: r in rules && IsRange(r, a, n, d.text) && r.reason == d.reason
  {
    if rules != [] {
      var front, last := rules[..|rules| - 1], rules[|rules| - 1];
      RangeDeniesFrom(front, a, n);
      assert last in rules;
      forall d | d in RangeDenies(rules, a, n)
        ensures exists r :: r in rules && IsRange(r, a, n, d.text) && r.reason == d.reason
      {
        if d in RangeDenies(front, a, n) {
          var r :| r in front && IsRange(r, a, n, d.text) && r.reason == d.reason;
          assert r in rules;
        } else {
          assert IsRange(last, a, n, d.text) && last.reason == d.reason;
        }
      }
    }
  }

  lemma RangesDecide(rules: seq<Rule>, a: Adapter, n: string)
    requires ReasonsAgree(rules, a)
    ensures TextsDecide(RangeDenies(rules, a, n))
  {
    var ds := RangeDenies(rules, a, n);
    RangeDeniesFrom(rules, a, n);
    forall d, e | d in ds && e in ds && d.text == e.text ensures d == e {
      var r :| r in rules && IsRange(r, a, n, d.text) && r.reason == d.reason;
      var s :| s in rules && IsRange(s, a, n, e.text) && s.reason == e.reason;
      assert About(r, a, n) && About(s, a, n);
    }
  }

  lemma {:induction false} SameBlocks(names: seq<string>, p: map<string, seq<RangeDeny>>,
                                      q: map<string, seq<RangeDeny>>)
    requires forall n | n in names :: n in p && n in q && SortByText(p[n]) == SortByText(q[n])
    ensures NpmEmit.Blocks(names, p) == NpmEmit.Blocks(names, q)
  {
    if names != [] {
      SameBlocks(names[..|names| - 1], p, q);
      assert names[|names| - 1] in names;
    }
  }

  lemma NpmResolvableAlike(rules: seq<Rule>, perm: seq<Rule>, a: Adapter)
    requires multiset(rules) == multiset(perm) && Accepted(rules, a) && Accepted(perm, a)
    ensures NpmCompiler.Resolvable(BucketsOf(rules, a), a) <==> NpmCompiler.Resolvable(BucketsOf(perm, a), a)
  {
    PermutedBuckets(rules, perm, a);
    var b, c := BucketsOf(rules, a), BucketsOf(perm, a);
    assert forall n :: NpmCompiler.OutOfScope(b, n) <==> NpmCompiler.OutOfScope(c, n);
    assert forall n :: NpmCompiler.CarvesRange(b, n) <==> NpmCompiler.CarvesRange(c, n);
    assert forall n :: NpmCompiler.CarvesBadly(b, a, n) <==> NpmCompiler.CarvesBadly(c, a, n);
  }

  lemma NpmYamlAlike(rules: seq<Rule>, perm: seq<Rule>, a: Adapter, minAge: string)
    requires multiset(rules) == multiset(perm) && Accepted(rules, a) && Accepted(perm, a) && ReasonsAgree(rules, a)
    ensures NpmYaml(rules, a, minAge) == NpmYaml(perm, a, minAge)
  {
    PermutedBuckets(rules, perm, a);
    SameWholes(rules, perm, a);
    SameResolvedRanges(rules, perm, a);
    var p, q := NpmCompiler.Resolved(BucketsOf(rules, a)), NpmCompiler.Resolved(BucketsOf(perm, a));
    SameBlocks(SortedKeys(p.ranges), p.ranges, q.ranges);
    assert p.ranges == map[] <==> q.ranges == map[];
    assert NpmEmit.DocOf(p, minAge) == NpmEmit.DocOf(q, minAge);
  }

  lemma NpmOrderIrrelevant(rules: seq<Rule>, perm: seq<Rule>, a: Adapter, minAge: string)
    requires multiset(rules) == multiset(perm) && Accepted(rules, a) && Accepted(perm, a)
    ensures NpmCompiler.Resolvable(BucketsOf(rules, a), a) <==> NpmCompiler.Resolvable(BucketsOf(perm, a), a)
    ensures ReasonsAgree(rules, a) ==> NpmYaml(rules, a, minAge) == NpmYaml(perm, a, minAge)
  {
    NpmResolvableAlike(rules, perm, a);
    if ReasonsAgree(rules, a) { NpmYamlAlike(rules, perm, a, minAge); }
  }

  lemma SameResolvedRanges(rules: seq<Rule>, perm: seq<Rule>, a: Adapter)
    requires multiset(rules) == multiset(perm) && Accepted(rules, a) && Accepted(perm, a) && ReasonsAgree(rules, a)
    ensures var p := NpmCompiler.Resolved(BucketsOf(rules, a)).ranges;
            var q := NpmCompiler.Resolved(BucketsOf(perm, a)).ranges;
            p.Keys == q.Keys && forall n | n in p :: SortByText(p[n]) == SortByText(q[n])
  {
    PermutedBuckets(rules, perm, a);
    SameWholes(rules, perm, a);
    RangesAreFaithful(rules, a);
    var b, c := BucketsOf(rules, a), BucketsOf(perm, a);
    var p, q := NpmCompiler.Resolved(b).ranges, NpmCompiler.Resolved(c).ranges;
    assert NpmCompiler.Carved(b, b.exactAllows.Keys) == NpmCompiler.Carved(c, c.exactAllows.Keys);
    assert p.Keys == q.Keys;
    forall n | n in p ensures SortByText(p[n]) == SortByText(q[n]) {
      if n !in NpmCompiler.Carved(b, b.exactAllows.Keys) {
        assert p[n] == b.ranges[n] == RangesOf(b, n) && q[n] == c.ranges[n];
        RangesDecide(rules, a, n);
        SortedAgree(p[n], q[n]);
      }
    }
  }

  /** Permuting the rules fails both compilations or neither; the artifacts are identical,
      the npm document where duplicate denies of one package and range agree on their reason. */
  lemma OrderIrrelevant(p: Policy, perm: seq<Rule>, npm: Adapter, pypi: PypiCompiler.Dialect)
    requires multiset(p.rules) == multiset(perm)
    ensures Compilable(p, npm, pypi) <==> Compilable(p.(rules := perm), npm, pypi)
    ensures Compilable(p, npm, pypi) ==>
              var x, y := ArtifactsOf(p, npm, pypi), ArtifactsOf(p.(rules := perm), npm, pypi);
              && x.pypiConstraints == y.pypiConstraints && x.upstreamYaml == y.upstreamYaml && x.minAge == y.minAge
              && (ReasonsAgree(p.rules, npm) ==> x.npmYaml == y.npmYaml)
  {
    PermutedBuckets(p.rules, perm, npm);
    PermutedBuckets(p.rules, perm, pypi.a);
    if Accepted(p.rules, npm) && Accepted(p.rules, pypi.a) {
      NpmOrderIrrelevant(p.rules, perm, npm, p.minAge);
      PypiOrderIrrelevant(pypi, BucketsOf(p.rules, pypi.a), BucketsOf(perm, pypi.a),
                          p.defaults.ForEcosystem("pypi").Deny?);
    }
  }
}

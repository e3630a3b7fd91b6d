/** Policy rules, and the deny/allow buckets `_classify` sorts them into. */
module Rules {
  import opened Base
  import opened Text

  datatype Action = Deny | Allow

  /** Exactly one of `name` / `namespace` is set on a rule. */
  datatype Target = Package(name: string) | Namespace(ns: string)

  datatype Rule = Rule(ecosystem: string, target: Target, versions: Option<string>, action: Action,
                       reason: Option<string>)

  /** What an ecosystem adapter offers the compiler; `exact` joins is_exact and exact_value. */
  datatype Adapter = Adapter(
    ecosystem: string,
    namespaces: bool,
    normalizeName: string -> Option<string>,
    normalizeNamespace: string -> string,
    valid: string -> bool,
    exact: string -> Option<string>)

  /** The ways a policy can be rejected. */
  datatype PolicyError =
    | NamespacesUnsupported | InvalidName | InvalidRange | AllowedRange
    | DefaultDenyUnsupported | PackageOutOfScope | RangeCarving | CarveOutInvalid
    | NotComplementable | CombinedInvalid | EmptyAllowSet | SeveralExactAllows | LineInvalid

  datatype RangeDeny = RangeDeny(text: string, reason: Option<string>)

  datatype Buckets = Buckets(
    nsDenies: set<string>,
    nsAllows: set<string>,
    whole: map<string, Option<string>>,
    ranges: map<string, seq<RangeDeny>>,
    wholeAllows: set<string>,
    exactAllows: map<string, set<string>>)

  const EMPTY := Buckets({}, {}, map[], map[], {}, map[])

  /******* One rule *******/

  /** Why the rule is rejected, or None; a rule of another ecosystem is skipped. */
  function RuleError(rule: Rule, a: Adapter): Option<PolicyError> {
    if rule.ecosystem != a.ecosystem then None
    else match rule.target
      case Namespace(_) => if a.namespaces then None else Some(NamespacesUnsupported)
      case Package(raw) =>
        if a.normalizeName(raw).None? then Some(InvalidName)
        else if rule.versions.Some? && !a.valid(rule.versions.value) then Some(InvalidRange)
        else if rule.action.Allow? && rule.versions.Some? && a.exact(rule.versions.value).None? then Some(AllowedRange)
        else None
  }

  function ExactsOf(b: Buckets, name: string): set<string> {
    if name in b.exactAllows then b.exactAllows[name] else {}
  }

  function RangesOf(b: Buckets, name: string): seq<RangeDeny> {
    if name in b.ranges then b.ranges[name] else []
  }

  /** The buckets after one accepted rule. */
  function Filed(b: Buckets, rule: Rule, a: Adapter): Buckets
    requires RuleError(rule, a).None?
  {
    if rule.ecosystem != a.ecosystem then b
    else match rule.target
      case Namespace(raw) =>
        var ns := a.normalizeNamespace(raw);
        if rule.action.Deny? then b.(nsDenies := b.nsDenies + {ns}) else b.(nsAllows := b.nsAllows + {ns})
      case Package(raw) =>
        var name := a.normalizeName(raw).value;
        match (rule.action, rule.versions)
        case (Allow, None) => b.(wholeAllows := b.wholeAllows + {name})
        case (Allow, Some(t)) => b.(exactAllows := b.exactAllows[name := ExactsOf(b, name) + {a.exact(t).value}])
        case (Deny, None) => b.(whole := b.whole[name := rule.reason])
        case (Deny, Some(t)) => b.(ranges := b.ranges[name := RangesOf(b, name) + [RangeDeny(t, rule.reason)]])
  }

  /******* All rules *******/

  predicate Accepted(rules: seq<Rule>, a: Adapter) {
    forall r | r in rules :: RuleError(r, a).None?
  }

  /** The buckets of an accepted rule list. */
  function BucketsOf(rules: seq<Rule>, a: Adapter): Buckets
    requires Accepted(rules, a)
  {
    if rules == [] then EMPTY
    else Filed(BucketsOf(rules[..|rules| - 1], a), rules[|rules| - 1], a)
  }

  method Classify(rules: seq<Rule>, a: Adapter) returns (r: Result<Buckets, PolicyError>)
    ensures r.Ok? <==> Accepted(rules, a)
    ensures r.Ok? ==> r.value == BucketsOf(rules, a)
    ensures r.Err? ==>
      exists i :: 0 <= i < |rules| && RuleError(rules[i], a) == Some(r.error) && Accepted(rules[..i], a)
  {
    var nsDenies, nsAllows, wholeAllows := {}, {}, {};
    var whole, ranges, exactAllows := map[], map[], map[];
    for i := 0 to |rules|
      invariant Accepted(rules[..i], a)
      invariant Buckets(nsDenies, nsAllows, whole, ranges, wholeAllows, exactAllows) == BucketsOf(rules[..i], a)
    {
      var rule := rules[i];
      ghost var next := rules[..i + 1];
      assert next[..i] == rules[..i] && next[i] == rule;
      assert forall r :: r in next <==> r in rules[..i] || r == rule;
      assert rule in rules;
      if rule.ecosystem != a.ecosystem { continue; }
      match rule.target {
        case Namespace(raw) =>
          if !a.namespaces { return Err(NamespacesUnsupported); }
          var ns := a.normalizeNamespace(raw);
          if rule.action.Deny? { nsDenies := nsDenies + {ns}; } else { nsAllows := nsAllows + {ns}; }
        case Package(raw) =>
          var normalized := a.normalizeName(raw);
          if normalized.None? { return Err(InvalidName); }
          var name := normalized.value;
          if rule.versions.Some? && !a.valid(rule.versions.value) { return Err(InvalidRange); }
          if rule.action.Allow? {
            if rule.versions.None? {
              wholeAllows := wholeAllows + {name};
            } else if a.exact(rule.versions.value).Some? {
              var before := if name in exactAllows then exactAllows[name] else {};
              exactAllows := exactAllows[name := before + {a.exact(rule.versions.value).value}];
            } else {
              return Err(AllowedRange);
            }
          } else if rule.versions.None? {
            whole := whole[name := rule.reason];
          } else {
            var before := if name in ranges then ranges[name] else [];
            ranges := ranges[name := before + [RangeDeny(rule.versions.value, rule.reason)]];
          }
      }
    }
    assert rules[..|rules|] == rules;
    return Ok(Buckets(nsDenies, nsAllows, whole, ranges, wholeAllows, exactAllows));
  }

  /******* What the rules say, bucket by bucket *******/

  predicate About(r: Rule, a: Adapter, name: string) {
    r.ecosystem == a.ecosystem && r.target.Package? && a.normalizeName(r.target.name) == Some(name)
  }

  predicate AboutScope(r: Rule, a: Adapter, ns: string) {
    r.ecosystem == a.ecosystem && r.target.Namespace? && a.normalizeNamespace(r.target.ns) == ns
  }

  predicate IsScope(r: Rule, a: Adapter, ns: string, action: Action) { AboutScope(r, a, ns) && r.action == action }
  predicate IsWhole(r: Rule, a: Adapter, name: string, action: Action) {
    About(r, a, name) && r.action == action && r.versions.None?
  }

  predicate IsRange(r: Rule, a: Adapter, name: string, text: string) {
    About(r, a, name) && r.action.Deny? && r.versions == Some(text)
  }

  predicate IsExact(r: Rule, a: Adapter, name: string, e: string) {
    About(r, a, name) && r.action.Allow? && r.versions.Some? && a.exact(r.versions.value) == Some(e)
  }

  ghost predicate ScopeRule(rules: seq<Rule>, a: Adapter, ns: string, action: Action) {
    exists r :: r in rules && IsScope(r, a, ns, action)
  }

  ghost predicate WholeRule(rules: seq<Rule>, a: Adapter, name: string, action: Action) {
    exists r :: r in rules && IsWhole(r, a, name, action)
  }

  ghost predicate RangeDenied(rules: seq<Rule>, a: Adapter, name: string, text: string) {
    exists r :: r in rules && IsRange(r, a, name, text)
  }

  ghost predicate ExactAllowed(rules: seq<Rule>, a: Adapter, name: string, e: string) {
    exists r :: r in rules && IsExact(r, a, name, e)
  }

  /** The range denies of one package, in rule order. */
  function RangeDenies(rules: seq<Rule>, a: Adapter, name: string): seq<RangeDeny> {
    if rules == [] then []
    else
      var r := rules[|rules| - 1];
      var before := RangeDenies(rules[..|rules| - 1], a, name);
      if About(r, a, name) && r.action.Deny? && r.versions.Some? then before + [RangeDeny(r.versions.value, r.reason)]
      else before
  }

  ghost predicate ScopesFaithful(b: Buckets, rules: seq<Rule>, a: Adapter) {
    forall ns ::
      && (ns in b.nsDenies <==> ScopeRule(rules, a, ns, Deny))
      && (ns in b.nsAllows <==> ScopeRule(rules, a, ns, Allow))
  }

  ghost predicate WholesFaithful(b: Buckets, rules: seq<Rule>, a: Adapter) {
    forall n ::
      && (n in b.whole <==> WholeRule(rules, a, n, Deny))
      && (n in b.wholeAllows <==> WholeRule(rules, a, n, Allow))
  }

  ghost predicate ExactsFaithful(b: Buckets, rules: seq<Rule>, a: Adapter) {
    && (forall n, e :: e in ExactsOf(b, n) <==> ExactAllowed(rules, a, n, e))
    && (forall n | n in b.exactAllows :: b.exactAllows[n] != {})
  }

  ghost predicate RangesFaithful(b: Buckets, rules: seq<Rule>, a: Adapter) {
    && (forall n :: RangesOf(b, n) == RangeDenies(rules, a, n))
    && (forall n | n in b.ranges :: b.ranges[n] != [])
  }

  /** Every bucket holds exactly what some rule puts there; nothing else does. */
  ghost predicate Faithful(b: Buckets, rules: seq<Rule>, a: Adapter) {
    && ScopesFaithful(b, rules, a) && WholesFaithful(b, rules, a)
    && ExactsFaithful(b, rules, a) && RangesFaithful(b, rules, a)
  }

  lemma LastRule(rules: seq<Rule>, a: Adapter)
    requires rules != []
    ensures var front, last := rules[..|rules| - 1], rules[|rules| - 1];
            && (forall ns, x :: ScopeRule(rules, a, ns, x) <==> ScopeRule(front, a, ns, x) || IsScope(last, a, ns, x))
            && (forall n, x :: WholeRule(rules, a, n, x) <==> WholeRule(front, a, n, x) || IsWhole(last, a, n, x))
            && (forall n, e :: ExactAllowed(rules, a, n, e) <==> ExactAllowed(front, a, n, e) || IsExact(last, a, n, e))
            && (forall n, t :: RangeDenied(rules, a, n, t) <==> RangeDenied(front, a, n, t) || IsRange(last, a, n, t))
  {
    var front, last := rules[..|rules| - 1], rules[|rules| - 1];
    assert forall r :: r in rules <==> r in front || r == last;
  }

  lemma {:induction false} ScopesAreFaithful(rules: seq<Rule>, a: Adapter)
    requires Accepted(rules, a)
    ensures ScopesFaithful(BucketsOf(rules, a), rules, a)
  {
    if rules != [] {
      ScopesAreFaithful(rules[..|rules| - 1], a);
      LastRule(rules, a);
      assert rules[|rules| - 1] in rules;
    }
  }

  lemma {:induction false} WholesAreFaithful(rules: seq<Rule>, a: Adapter)
    requires Accepted(rules, a)
    ensures WholesFaithful(BucketsOf(rules, a), rules, a)
  {
    if rules != [] {
      WholesAreFaithful(rules[..|rules| - 1], a);
      LastRule(rules, a);
      assert rules[|rules| - 1] in rules;
    }
  }

  lemma {:induction false} ExactsAreFaithful(rules: seq<Rule>, a: Adapter)
    requires Accepted(rules, a)
    ensures ExactsFaithful(BucketsOf(rules, a), rules, a)
  {
    if rules != [] {
      var front, last := rules[..|rules| - 1], rules[|rules| - 1];
      ExactsAreFaithful(front, a);
      LastRule(rules, a);
      assert last in rules;
      OneMoreExact(BucketsOf(front, a), last, a);
    }
  }

  /** Filing a rule adds exactly its own exact allow. */
  lemma OneMoreExact(b: Buckets, rule: Rule, a: Adapter)
    requires RuleError(rule, a).None?
    ensures forall n, e :: e in ExactsOf(Filed(b, rule, a), n) <==> e in ExactsOf(b, n) || IsExact(rule, a, n, e)
    ensures (forall n | n in b.exactAllows :: b.exactAllows[n] != {}) ==>
      forall n | n in Filed(b, rule, a).exactAllows :: Filed(b, rule, a).exactAllows[n] != {}
  {
  }

  lemma {:induction false} RangesAreFaithful(rules: seq<Rule>, a: Adapter)
    requires Accepted(rules, a)
    ensures RangesFaithful(BucketsOf(rules, a), rules, a)
  {
    if rules != [] {
      RangesAreFaithful(rules[..|rules| - 1], a);
      assert rules[|rules| - 1] in rules;
    }
  }

  lemma BucketsAreFaithful(rules: seq<Rule>, a: Adapter)
    requires Accepted(rules, a)
    ensures Faithful(BucketsOf(rules, a), rules, a)
  {
    ScopesAreFaithful(rules, a);
    WholesAreFaithful(rules, a);
    ExactsAreFaithful(rules, a);
    RangesAreFaithful(rules, a);
  }

  function Texts(ds: seq<RangeDeny>): seq<string> { seq(|ds|, i requires 0 <= i < |ds| => ds[i].text) }

  lemma {:induction false} RangeDeniesMeaning(rules: seq<Rule>, a: Adapter, name: string)
    ensures forall t :: RangeDenied(rules, a, name, t) <==> t in Texts(RangeDenies(rules, a, name))
  {
    if rules != [] {
      var front, last := rules[..|rules| - 1], rules[|rules| - 1];
      RangeDeniesMeaning(front, a, name);
      LastRule(rules, a);
      var ds, es := RangeDenies(front, a, name), RangeDenies(rules, a, name);
      if es != ds { assert Texts(es) == Texts(ds) + [last.versions.value]; }
    }
  }

  lemma HasRange(rules: seq<Rule>, a: Adapter, name: string)
    requires Accepted(rules, a)
    ensures name in BucketsOf(rules, a).ranges <==> exists t :: RangeDenied(rules, a, name, t)
  {
    RangesAreFaithful(rules, a);
    RangeDeniesMeaning(rules, a, name);
    var b := BucketsOf(rules, a);
    if name in b.ranges {
      var ts := Texts(RangesOf(b, name));
      assert ts[0] in ts;
    }
  }

  lemma HasExact(rules: seq<Rule>, a: Adapter, name: string)
    requires Accepted(rules, a)
    ensures name in BucketsOf(rules, a).exactAllows <==> exists e :: ExactAllowed(rules, a, name, e)
  {
    ExactsAreFaithful(rules, a);
    var b := BucketsOf(rules, a);
    if name in b.exactAllows {
      var e :| e in b.exactAllows[name];
      assert e in ExactsOf(b, name);
    }
    if e :| ExactAllowed(rules, a, name, e) { assert e in ExactsOf(b, name); }
  }

  /** A rule list is accepted iff each rule of the ecosystem names a namespace where there are any, or a package whose
      name can be normalized, with versions, if any, that are valid and in an allow exact. */
  lemma AcceptedMeaning(rules: seq<Rule>, a: Adapter)
    ensures Accepted(rules, a) <==> forall i | 0 <= i < |rules| && rules[i].ecosystem == a.ecosystem ::
      match rules[i].target
      case Namespace(_) => a.namespaces
      case Package(raw) =>
        && a.normalizeName(raw).Some?
        && (rules[i].versions.Some? ==>
              && a.valid(rules[i].versions.value)
              && (rules[i].action == Allow ==> a.exact(rules[i].versions.value).Some?))
  {
    forall i | 0 <= i < |rules| ensures rules[i] in rules {}
  }

  /** Every range in a bucket passed the adapter's validation. */
  lemma {:induction false} BucketRangesValid(rules: seq<Rule>, a: Adapter)
    requires Accepted(rules, a)
    ensures RangesValid(BucketsOf(rules, a), a)
  {
    if rules != [] {
      BucketRangesValid(rules[..|rules| - 1], a);
      assert rules[|rules| - 1] in rules;
    }
  }

  predicate AllValid(ds: seq<RangeDeny>, a: Adapter) { forall i | 0 <= i < |ds| :: a.valid(ds[i].text) }

  predicate RangesValid(b: Buckets, a: Adapter) { forall n | n in b.ranges :: AllValid(b.ranges[n], a) }

  /******* sorted(ranges[name], key=lambda t: t[0]) *******/

  function InsertByText(d: RangeDeny, ds: seq<RangeDeny>): seq<RangeDeny> {
    if ds == [] then [d]
    else if Before(d.text, ds[0].text) then [d] + ds
    else [ds[0]] + InsertByText(d, ds[1..])
  }

  /** Stable sort by range text: a later equal text goes behind the earlier ones. */
  function SortByText(ds: seq<RangeDeny>): seq<RangeDeny> {
    if ds == [] then [] else InsertByText(ds[|ds| - 1], SortByText(ds[..|ds| - 1]))
  }

  predicate TextSorted(ds: seq<RangeDeny>) {
    forall i, j | 0 <= i < j < |ds| :: !Before(ds[j].text, ds[i].text)
  }

  lemma {:induction false} InsertFacts(d: RangeDeny, ds: seq<RangeDeny>)
    requires TextSorted(ds)
    ensures multiset(InsertByText(d, ds)) == multiset(ds) + multiset{d}
    ensures TextSorted(InsertByText(d, ds))
  {
    if ds != [] {
      assert ds == [ds[0]] + ds[1..];
      if Before(d.text, ds[0].text) {
        forall j | 0 <= j < |ds| ensures !Before(ds[j].text, d.text) {
          if Before(ds[j].text, d.text) {
            BeforeTransitive(ds[j].text, d.text, ds[0].text);
            BeforeAsymmetric(ds[j].text, ds[0].text);
          }
          BeforeAsymmetric(d.text, ds[0].text);
        }
      } else {
        InsertFacts(d, ds[1..]);
        var rest := InsertByText(d, ds[1..]);
        forall e | e in rest ensures !Before(e.text, ds[0].text) {
          assert e in multiset(rest);
          if e != d { assert e in ds[1..]; }
        }
      }
    }
  }

  lemma {:induction false} SortFacts(ds: seq<RangeDeny>)
    ensures multiset(SortByText(ds)) == multiset(ds)
    ensures TextSorted(SortByText(ds))
  {
    if ds != [] {
      var front := ds[..|ds| - 1];
      SortFacts(front);
      InsertFacts(ds[|ds| - 1], SortByText(front));
      assert ds == front + [ds[|ds| - 1]];
    }
  }

  /** Sorting neither adds nor loses a range text. */
  lemma SortKeepsTexts(ds: seq<RangeDeny>)
    ensures |SortByText(ds)| == |ds|
    ensures forall t :: t in Texts(SortByText(ds)) <==> t in Texts(ds)
  {
    SortFacts(ds);
    var s := SortByText(ds);
    assert |multiset(s)| == |multiset(ds)|;
    forall t ensures t in Texts(s) <==> t in Texts(ds) {
      if t in Texts(s) {
        var i :| 0 <= i < |s| && s[i].text == t;
        assert s[i] in multiset(ds);
        var j :| 0 <= j < |ds| && ds[j] == s[i];
        assert Texts(ds)[j] == t;
      }
      if t in Texts(ds) {
        var i :| 0 <= i < |ds| && ds[i].text == t;
        assert ds[i] in multiset(s);
        var j :| 0 <= j < |s| && s[j] == ds[i];
        assert Texts(s)[j] == t;
      }
    }
  }

  lemma ValidByText(ds: seq<RangeDeny>, a: Adapter)
    ensures AllValid(ds, a) <==> forall t | t in Texts(ds) :: a.valid(t)
  {
    forall i | 0 <= i < |ds| ensures ds[i].text in Texts(ds) { assert Texts(ds)[i] == ds[i].text; }
  }

  lemma SortedValid(ds: seq<RangeDeny>, a: Adapter)
    ensures AllValid(SortByText(ds), a) <==> AllValid(ds, a)
  {
    SortKeepsTexts(ds);
    ValidByText(ds, a);
    ValidByText(SortByText(ds), a);
  }
}

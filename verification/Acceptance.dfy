/** Which policies compile, said of their rules alone. */
module Acceptance {
  import opened Base
  import opened Text
  import opened Rules
  import opened Compile
  import opened EmptySetGuard
  import opened PlainAdapters
  import opened PypiCompiler
  import EndToEnd
  import MinAge
  import Names
  import NpmCompiler
  import NpmMeaning
  import Pep440
  import PypiMeaning

  /******* pypi lines *******/

  /** A package some rule names with its normalized name. */
  ghost predicate Named(rules: seq<Rule>, n: string) { exists r :: r in rules && About(r, Pypi().a, n) }

  lemma NamedIsNormal(rules: seq<Rule>, n: string)
    requires Named(rules, n)
    ensures Names.PypiName(n, Names.Lower) == Some(n) && forall i | 0 <= i < |n| :: !IsOpChar(n[i])
  {
    var r :| r in rules && About(r, Pypi().a, n);
    Names.LowerLowers();
    Names.PypiNameFacts(r.target.name, Names.Lower);
  }

  lemma BucketsNameRules(rules: seq<Rule>, n: string)
    requires Accepted(rules, Pypi().a)
    requires var b := BucketsOf(rules, Pypi().a);
      n in b.ranges || n in b.whole || n in b.wholeAllows || n in b.exactAllows
    ensures Named(rules, n)
  {
    var a := Pypi().a;
    WholesAreFaithful(rules, a);
    HasRange(rules, a, n);
    HasExact(rules, a, n);
    if WholeRule(rules, a, n, Deny) {
      var r :| r in rules && IsWhole(r, a, n, Deny);
    } else if WholeRule(rules, a, n, Allow) {
      var r :| r in rules && IsWhole(r, a, n, Allow);
    } else if t :| RangeDenied(rules, a, n, t) {
      var r :| r in rules && IsRange(r, a, n, t);
    } else {
      var e :| ExactAllowed(rules, a, n, e);
      var r :| r in rules && IsExact(r, a, n, e);
    }
  }

  lemma InvertedArePlain(ds: seq<RangeDeny>)
    requires Complementable(Pypi(), SortByText(ds))
    ensures |RangeSpecs(Pypi(), ds)| == |ds| && PlainSpecs(RangeSpecs(Pypi(), ds))
  {
    SortKeepsLength(ds);
  }

  /** A range line passes every guard but those on its ranges. */
  lemma RangeLineIff(n: string, ds: seq<RangeDeny>)
    requires Names.PypiName(n, Names.Lower) == Some(n) && ds != []
    ensures RangeLineOk(Pypi(), n, ds) <==>
      Complementable(Pypi(), SortByText(ds)) && !ReadsAsEmpty(RangeSpecs(Pypi(), ds))
  {
    if Complementable(Pypi(), SortByText(ds)) {
      InvertedArePlain(ds);
      JoinedIsValid(RangeSpecs(Pypi(), ds));
      LinePrints(n, RangeSpecs(Pypi(), ds));
    }
  }

  lemma PinPrints(n: string, v: string)
    requires Names.PypiName(n, Names.Lower) == Some(n) && PypiMeaning.PlainRelease(v)
    ensures LineValid(Pypi(), LineText(PypiLine(n, [Pep440.Spec(Pep440.Eq, v)])))
  {
    LinePrints(n, [Pep440.Spec(Pep440.Eq, v)]);
  }

  lemma KillPrints(rules: seq<Rule>, n: string)
    requires Accepted(rules, Pypi().a) && n in BucketsOf(rules, Pypi().a).whole
    ensures LineValid(Pypi(), LineText(PypiLine(n, [Pep440.Spec(Pep440.Eq, "0")])))
  {
    BucketsNameRules(rules, n);
    NamedIsNormal(rules, n);
    PypiMeaning.ReadZero();
    PinPrints(n, "0");
  }

  lemma WholesPrint(rules: seq<Rule>, denyAll: bool)
    requires Accepted(rules, Pypi().a)
    ensures LinesValid(Pypi(), WholeLines(Sorted(PlanOf(BucketsOf(rules, Pypi().a), denyAll).whole)))
  {
    var names := Sorted(PlanOf(BucketsOf(rules, Pypi().a), denyAll).whole);
    SortedFacts(PlanOf(BucketsOf(rules, Pypi().a), denyAll).whole);
    forall i | 0 <= i < |names| ensures LineValid(Pypi(), LineText(WholeLines(names)[i])) {
      assert names[i] in names;
      KillPrints(rules, names[i]);
    }
  }

  lemma BaresPrint(rules: seq<Rule>, denyAll: bool)
    requires Accepted(rules, Pypi().a)
    ensures LinesValid(Pypi(), BareLines(Sorted(PlanOf(BucketsOf(rules, Pypi().a), denyAll).bare)))
  {
    var names := Sorted(PlanOf(BucketsOf(rules, Pypi().a), denyAll).bare);
    SortedFacts(PlanOf(BucketsOf(rules, Pypi().a), denyAll).bare);
    forall i | 0 <= i < |names| ensures LineValid(Pypi(), LineText(BareLines(names)[i])) {
      assert names[i] in names;
      BucketsNameRules(rules, names[i]);
      NamedIsNormal(rules, names[i]);
      GuardPassesNames(Pypi(), names[i]);
    }
  }

  lemma PinsPrint(rules: seq<Rule>, denyAll: bool)
    requires Accepted(rules, Pypi().a)
    ensures var exact := PlanOf(BucketsOf(rules, Pypi().a), denyAll).exact;
      LinesValid(Pypi(), PinLines(SortedKeys(exact), exact))
  {
    var b := BucketsOf(rules, Pypi().a);
    var exact := PlanOf(b, denyAll).exact;
    var names := SortedKeys(exact);
    forall i | 0 <= i < |names| ensures LineValid(Pypi(), LineText(PinLines(names, exact)[i])) {
      var n := names[i];
      assert n in names && n in b.exactAllows;
      BucketsNameRules(rules, n);
      NamedIsNormal(rules, n);
      PinIsPlain(rules, n);
      PinPrints(n, exact[n]);
    }
  }

  lemma PinIsPlain(rules: seq<Rule>, n: string)
    requires Accepted(rules, Pypi().a) && n in BucketsOf(rules, Pypi().a).exactAllows
    ensures PypiMeaning.PlainRelease(TheOne(BucketsOf(rules, Pypi().a).exactAllows[n]))
  {
    var pins := BucketsOf(rules, Pypi().a).exactAllows[n];
    ExactsAreFaithful(rules, Pypi().a);
    SortedFacts(pins);
    assert Sorted(pins)[0] in Sorted(pins);
    assert TheOne(pins) in ExactsOf(BucketsOf(rules, Pypi().a), n);
    EveryPypiRuleIsPlain(rules);
  }

  /** The range denies of a package invert, and the guard does not read their complements as empty. */
  ghost predicate RangesCompile(rules: seq<Rule>, n: string) {
    var ds := Rules.RangeDenies(rules, Pypi().a, n);
    Complementable(Pypi(), SortByText(ds)) && !ReadsAsEmpty(RangeSpecs(Pypi(), ds))
  }

  lemma RangesPrint(rules: seq<Rule>, n: string)
    requires Accepted(rules, Pypi().a) && n in BucketsOf(rules, Pypi().a).ranges
    ensures RangeLineOk(Pypi(), n, BucketsOf(rules, Pypi().a).ranges[n]) <==> RangesCompile(rules, n)
  {
    var b := BucketsOf(rules, Pypi().a);
    RangesAreFaithful(rules, Pypi().a);
    assert RangesOf(b, n) == b.ranges[n];
    BucketsNameRules(rules, n);
    NamedIsNormal(rules, n);
    RangeLineIff(n, b.ranges[n]);
  }

  /** Under default-allow the ranges that no whole allow drops must compile, and under both defaults the pins stand. */
  lemma PypiEmitsIff(rules: seq<Rule>, denyAll: bool)
    requires Accepted(rules, Pypi().a)
    ensures Emittable(Pypi(), BucketsOf(rules, Pypi().a), denyAll) <==>
      && (forall n, e | ExactAllowed(rules, Pypi().a, n, e) && !WholeRule(rules, Pypi().a, n, Allow) ::
            PypiMeaning.PinCanStand(rules, Pypi().a, denyAll, n, e))
      && (!denyAll ==> forall n, t | RangeDenied(rules, Pypi().a, n, t) && !WholeRule(rules, Pypi().a, n, Allow) ::
            RangesCompile(rules, n))
  {
    var a := Pypi().a;
    var b := BucketsOf(rules, a);
    PypiMeaning.PypiPlansIff(rules, a, denyAll);
    WholesPrint(rules, denyAll);
    BaresPrint(rules, denyAll);
    PinsPrint(rules, denyAll);
    RangesEmitIff(rules);
    assert PlanOf(b, denyAll).ranges == b.ranges - b.wholeAllows;
  }

  lemma RangesEmitIff(rules: seq<Rule>)
    requires Accepted(rules, Pypi().a)
    ensures var b := BucketsOf(rules, Pypi().a);
      RangeLinesOk(Pypi(), b.ranges - b.wholeAllows) <==>
      forall n, t | RangeDenied(rules, Pypi().a, n, t) && !WholeRule(rules, Pypi().a, n, Allow) ::
        RangesCompile(rules, n)
  {
    var a := Pypi().a;
    var b := BucketsOf(rules, a);
    var standing := b.ranges - b.wholeAllows;
    WholesAreFaithful(rules, a);
    forall n, t | RangeDenied(rules, a, n, t) ensures n in b.ranges { HasRange(rules, a, n); }
    forall n | n in b.ranges
      ensures exists t :: RangeDenied(rules, a, n, t)
      ensures RangeLineOk(Pypi(), n, b.ranges[n]) <==> RangesCompile(rules, n)
    {
      HasRange(rules, a, n);
      RangesPrint(rules, n);
    }
    assert forall n :: n in standing <==> n in b.ranges && !WholeRule(rules, a, n, Allow);
  }

  /******* Whole policies *******/

  /** The policy's default for npm: its own one, or else the general one. */
  predicate NpmAllows(p: Policy) {
    (if "npm" in p.defaults.ecosystems then p.defaults.ecosystems["npm"] else p.defaults.action).Allow?
  }

  lemma NpmPinsCarve(rules: seq<Rule>, n: string, e: string)
    requires ExactAllowed(rules, Npm(), n, e)
    ensures NpmMeaning.Carvable(rules, Npm(), n, e) <==> !exists t :: RangeDenied(rules, Npm(), n, t)
  {
    var r :| r in rules && IsExact(r, Npm(), n, e);
    CarveOutIsRead(e, MinAge.Exact(1.0));
    assert NpmCompiler.CarveOut(e) == "<" + e + " || >" + e;
  }

  lemma NpmRulesCompileIff(rules: seq<Rule>)
    requires Accepted(rules, Npm())
    ensures NpmCompiler.Resolvable(BucketsOf(rules, Npm()), Npm()) <==>
      && (forall n | WholeRule(rules, Npm(), n, Allow) && NpmMeaning.ScopeStands(rules, Npm(), n) ::
            WholeRule(rules, Npm(), n, Deny) || exists t :: RangeDenied(rules, Npm(), n, t))
      && (forall n, e, t | ExactAllowed(rules, Npm(), n, e) && RangeDenied(rules, Npm(), n, t) ::
            WholeRule(rules, Npm(), n, Allow))
  {
    NpmMeaning.NpmCompilesIff(rules, Npm());
    forall n, e | ExactAllowed(rules, Npm(), n, e)
      ensures NpmMeaning.Carvable(rules, Npm(), n, e) <==> !exists t :: RangeDenied(rules, Npm(), n, t)
    {
      NpmPinsCarve(rules, n, e);
    }
  }

  /**
   * Which policies compile, for the adapters on plain versions: the rules are accepted, npm allows by default, every
   * npm package allowed under a standing scope deny has a deny of its own, no npm pin stands beside a range deny; and
   * the pypi pins can stand and its ranges compile.
   */
  lemma PolicyCompilesIff(p: Policy)
    ensures Compilable(p, Npm(), Pypi()) <==>
      && Accepted(p.rules, Npm()) && Accepted(p.rules, Pypi().a) && NpmAllows(p)
      && (forall n | WholeRule(p.rules, Npm(), n, Allow) && NpmMeaning.ScopeStands(p.rules, Npm(), n) ::
            WholeRule(p.rules, Npm(), n, Deny) || exists t :: RangeDenied(p.rules, Npm(), n, t))
      && (forall n, e, t | ExactAllowed(p.rules, Npm(), n, e) && RangeDenied(p.rules, Npm(), n, t) ::
            WholeRule(p.rules, Npm(), n, Allow))
      && (forall n, e | ExactAllowed(p.rules, Pypi().a, n, e) && !WholeRule(p.rules, Pypi().a, n, Allow) ::
            PypiMeaning.PinCanStand(p.rules, Pypi().a, EndToEnd.DenyAll(p), n, e))
      && (!EndToEnd.DenyAll(p) ==>
            forall n, t | RangeDenied(p.rules, Pypi().a, n, t) && !WholeRule(p.rules, Pypi().a, n, Allow) ::
              RangesCompile(p.rules, n))
  {
    if Accepted(p.rules, Npm()) && Accepted(p.rules, Pypi().a) {
      NpmRulesCompileIff(p.rules);
      PypiEmitsIff(p.rules, EndToEnd.DenyAll(p));
    }
  }

  /** An allow rule for a package, or for one plain version of it. */
  ghost predicate PlainAllow(r: Rule) {
    && r.action.Allow? && r.target.Package?
    && (r.ecosystem == "npm" ==> r.versions.Some? ==> IsTriple(r.versions.value))
    && (r.ecosystem == "pypi" ==>
          && Names.PypiName(r.target.name, Names.Lower).Some?
          && (r.versions.Some? ==> exists v :: PypiMeaning.PlainRelease(v) && r.versions.value == "==" + v))
  }

  lemma TripleIsExact(v: string)
    requires IsTriple(v)
    ensures ReadRange(v).Some? && ReadExact(v) == Some(v)
  {
    TripleChars(v);
    StripFacts(v);
    SplitFirst(v, "", '|');
    assert v[..1] == [v[0]];
  }

  lemma FrontIsStripped(v: string, front: char)
    requires IsTriple(v) && (front == '=' || front == 'v')
    ensures Strip([front] + v) == [front] + v && Strip(v) == v && v[0] != 'v'
  {
    TripleChars(v);
    var t := [front] + v;
    assert t[0] == front && t[|t| - 1] == v[|v| - 1];
    assert Stripped(t);
    StripFacts(t);
    StripFacts(v);
  }

  /** A plain version is a pin, with or without `=` or `v` in front. */
  lemma PinSpellings(v: string, front: char)
    requires IsTriple(v) && (front == '=' || front == 'v')
    ensures ReadExact([front] + v) == Some(v)
  {
    FrontIsStripped(v, front);
    assert ([front] + v)[1..] == v;
  }

  lemma PinIsExact(v: string)
    requires PypiMeaning.PlainRelease(v)
    ensures ValidSet("==" + v) && ReadPin("==" + v) == Some(v)
  {
    OneIsValid(Pep440.Spec(Pep440.Eq, v));
    ReadsComparator(Pep440.Spec(Pep440.Eq, v));
  }

  lemma PlainAllowIsAccepted(r: Rule)
    requires PlainAllow(r)
    ensures RuleError(r, Npm()).None? && RuleError(r, Pypi().a).None?
  {
    if r.versions.Some? {
      if r.ecosystem == "npm" { TripleIsExact(r.versions.value); }
      if r.ecosystem == "pypi" {
        var v :| PypiMeaning.PlainRelease(v) && r.versions.value == "==" + v;
        PinIsExact(v);
      }
    }
  }

  /** Where both ecosystems allow by default, any allows of packages and of plain versions compile, in any number. */
  lemma PlainAllowsCompile(p: Policy)
    requires NpmAllows(p) && !EndToEnd.DenyAll(p) && forall r | r in p.rules :: PlainAllow(r)
    ensures Compilable(p, Npm(), Pypi())
  {
    forall r | r in p.rules ensures RuleError(r, Npm()).None? && RuleError(r, Pypi().a).None? {
      PlainAllowIsAccepted(r);
    }
    forall n, t ensures !RangeDenied(p.rules, Npm(), n, t) && !RangeDenied(p.rules, Pypi().a, n, t) {}
    forall n ensures !WholeRule(p.rules, Pypi().a, n, Deny) {}
    forall ns ensures !ScopeRule(p.rules, Npm(), ns, Deny) {}
    PolicyCompilesIff(p);
  }
}

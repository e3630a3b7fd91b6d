/** From the policy's rules to what the registries answer. */
module EndToEnd {
  import opened Base
  import opened Text
  import opened Rules
  import opened Compile
  import DevpiApply
  import DevpiConstraints
  import DevpiFilter
  import NpmCompiler
  import NpmDocument
  import NpmEmit
  import NpmFilter
  import NpmMeaning
  import Pep440
  import PolicyLoaders
  import PypiCompiler
  import PypiMeaning
  import ReleaseOrder
  import Sync

  /** The policy's default for pypi: its own one, or else the general one. */
  predicate DenyAll(p: Policy) {
    (if "pypi" in p.defaults.ecosystems then p.defaults.ecosystems["pypi"] else p.defaults.action).Deny?
  }

  /** The index can read its constraints if and only if the policy denies by default or no package is denied both whole
      and by range; then it admits what is not listed iff the policy does not deny by default, and exactly the allowed
      releases, but for release 0 of killed packages. */
  ghost predicate IndexEnforces(c: DevpiApply.IndexConfig, p: Policy, d: PypiCompiler.Dialect, name: string,
                                x: ReleaseOrder.Release)
    requires DevpiApply.EffectiveOf(c.constraints).Some?
  {
    var cs := DevpiConstraints.Parsed(DevpiApply.EffectiveOf(c.constraints).value);
    && (cs.Some? <==> DenyAll(p) || forall n :: !PypiMeaning.DeniedTwice(p.rules, d, n))
    && (cs.Some? ==>
          && (cs.value.all <==> DenyAll(p))
          && ((DevpiConstraints.Admits(cs.value, name, x)
               <==> PypiMeaning.AllowedByRules(p.rules, d, DenyAll(p), name, x))
              <==> !(PypiMeaning.Killed(p.rules, d, DenyAll(p), name) && ReleaseOrder.Compare(x, [0]) == 0)))
  }

  lemma IndexEnforcesPolicy(c: DevpiApply.IndexConfig, p: Policy, npm: Adapter, d: PypiCompiler.Dialect, name: string,
                            x: ReleaseOrder.Release)
    requires Compilable(p, npm, d) && PypiMeaning.PlainRules(p.rules, d)
    requires DevpiApply.Holds(c, ArtifactsOf(p, npm, d).pypiConstraints, p.minAge)
    ensures IndexEnforces(c, p, d, name, x)
  {
    PypiMeaning.ConstraintsAccepted(p.rules, d, DenyAll(p));
    if DenyAll(p) || forall n :: !PypiMeaning.DeniedTwice(p.rules, d, n) {
      PypiMeaning.TranslationMeaning(p.rules, d, DenyAll(p), name, x);
      PypiMeaning.ReadsBackPlan(p.rules, d, DenyAll(p));
    }
  }

  /** The download gate lets nothing past the constraints. */
  lemma DownloadsMeetConstraints(r: DevpiFilter.Request, project: string, link: DevpiFilter.Link)
    requires link.version.Some? && link.version.value.Plain? && DevpiFilter.LinkAllowed(r, project, link)
    ensures DevpiConstraints.Admits(r.constraints, project, link.version.value.release)
  {
  }

  /** Whatever plain release can be downloaded from an index that shows a policy is allowed by the policy's rules,
      or is release 0 of a killed package. */
  lemma DownloadsAreAllowed(c: DevpiApply.IndexConfig, p: Policy, npm: Adapter, d: PypiCompiler.Dialect,
                            r: DevpiFilter.Request, project: string, link: DevpiFilter.Link)
    requires Compilable(p, npm, d) && PypiMeaning.PlainRules(p.rules, d)
    requires DevpiApply.Holds(c, ArtifactsOf(p, npm, d).pypiConstraints, p.minAge)
    requires Some(r.constraints) == DevpiConstraints.Parsed(DevpiApply.EffectiveOf(c.constraints).value)
    requires link.version.Some? && link.version.value.Plain? && DevpiFilter.LinkAllowed(r, project, link)
    ensures var x := link.version.value.release;
      || PypiMeaning.AllowedByRules(p.rules, d, DenyAll(p), project, x)
      || (PypiMeaning.Killed(p.rules, d, DenyAll(p), project) && ReleaseOrder.Compare(x, [0]) == 0)
  {
    DownloadsMeetConstraints(r, project, link);
    IndexEnforcesPolicy(c, p, npm, d, project, link.version.value.release);
  }

  /** The filter plugin's reader of policy documents. */
  function FilterCompiler(lib: NpmFilter.Library): PolicyLoaders.Compiler<NpmFilter.CompiledPolicy> {
    text => match NpmDocument.ReadDocument(text)
            case None => None
            case Some(doc) => if NpmFilter.Compiles(doc, lib) then Some(NpmFilter.Compiled(doc, lib)) else None
  }

  /** A filter loads the document if and only if it can use the policy's minimum age and every name and range that
      stands, and then has that minimum age and blocks exactly what the rules deny of a package whose allows do not
      clash. */
  ghost predicate FilterEnforces(text: string, p: Policy, npm: Adapter, lib: NpmFilter.Library, name: string)
    requires Accepted(p.rules, npm)
  {
    var policy := FilterCompiler(lib)(text);
    && (policy.Some? <==> NpmEmit.Acceptable(NpmCompiler.Resolved(BucketsOf(p.rules, npm)), p.minAge, lib))
    && (policy.Some? ==>
          && Some(policy.value.minAgeMs) == lib.minAge(p.minAge)
          && ((forall v ::
                 NpmFilter.Blocked(policy.value, lib, name, v) <==> NpmMeaning.Denied(p.rules, npm, lib, name, v))
              <==> !NpmMeaning.AllowsClash(p.rules, npm, lib, name)))
  }

  lemma FilterEnforcesPolicy(p: Policy, npm: Adapter, d: PypiCompiler.Dialect, lib: NpmFilter.Library, name: string)
    requires Compilable(p, npm, d) && NpmEmit.PrefixesScopes(npm)
    requires NpmMeaning.CarveOutsRead(p.rules, npm, lib, name)
    ensures FilterEnforces(ArtifactsOf(p, npm, d).npmYaml, p, npm, lib, name)
  {
    NpmEmit.NpmEndToEnd(p.rules, npm, lib, p.minAge, name);
  }

  /** After a successful sync the fetched policy is in force: by the file a filter loads, by the store it polls, and on
      the index. */
  method SyncEnforces(s: Sync.Syncer, w: Sync.World, ghost lib: NpmFilter.Library, ghost name: string,
                      ghost x: ReleaseOrder.Release)
    returns (ok: bool)
    requires NpmEmit.PrefixesScopes(s.npm)
    modifies s
    ensures ok ==> w.fetched.Data? && s.Good(w.fetched.text)
    ensures ok && NpmMeaning.CarveOutsRead(s.parse(w.fetched.text).value.rules, s.npm, lib, name) ==>
      var p := s.parse(w.fetched.text).value;
      && (Sync.NpmFile in s.configured ==>
            Sync.NpmFile in s.texts && FilterEnforces(s.texts[Sync.NpmFile], p, s.npm, lib, name))
      && (Sync.NpmStore in s.configured ==>
            Sync.NpmStore in s.texts && FilterEnforces(s.texts[Sync.NpmStore], p, s.npm, lib, name))
    ensures ok && PypiMeaning.PlainRules(s.parse(w.fetched.text).value.rules, s.pypi) ==>
      && DevpiApply.EffectiveOf(s.index.constraints).Some?
      && IndexEnforces(s.index, s.parse(w.fetched.text).value, s.pypi, name, x)
  {
    ok := s.SyncOnce(w);
    if ok {
      ghost var p := s.parse(w.fetched.text).value;
      if NpmMeaning.CarveOutsRead(p.rules, s.npm, lib, name) { FilterEnforcesPolicy(p, s.npm, s.pypi, lib, name); }
      if PypiMeaning.PlainRules(p.rules, s.pypi) { IndexEnforcesPolicy(s.index, p, s.npm, s.pypi, name, x); }
    }
  }
}

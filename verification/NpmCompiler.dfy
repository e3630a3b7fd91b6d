/** The npm half of the compiler: allow-wins resolution into a block-list. */
module NpmCompiler {
  import opened Base
  import opened Text
  import opened Rules

  /******* Scopes *******/

  function IndexOf(s: string, c: char): (i: nat)
    requires c in s
    ensures i < |s| && s[i] == c && c !in s[..i]
  {
    if s[0] == c then 0 else 1 + IndexOf(s[1..], c)
  }

  /** The `@scope` of a scoped package name. */
  function ScopeOf(name: string): Option<string> {
    if name != [] && name[0] == '@' && '/' in name then Some(name[..IndexOf(name, '/')]) else None
  }

  predicate Covered(name: string, scopes: set<string>) {
    ScopeOf(name).Some? && ScopeOf(name).value in scopes
  }

  /******* Resolution *******/

  /** What is left to block: sorted scopes, sorted whole packages, ranges per package. */
  datatype NpmBlocks = NpmBlocks(scopes: seq<string>, packages: seq<string>, ranges: map<string, seq<RangeDeny>>)

  /** Everything but one point, as a semver range. */
  function CarveOut(v: string): string { "<" + v + " || >" + v }

  function CarveOuts(vs: seq<string>, reason: Option<string>): seq<RangeDeny> {
    seq(|vs|, i requires 0 <= i < |vs| => RangeDeny(CarveOut(vs[i]), reason))
  }

  function StandingScopes(b: Buckets): set<string> { b.nsDenies - b.nsAllows }

  /** Denies that no whole-package allow drops. */
  function StandingWhole(b: Buckets): map<string, Option<string>> { b.whole - b.wholeAllows }
  function StandingRanges(b: Buckets): map<string, seq<RangeDeny>> { b.ranges - b.wholeAllows }

  /** A package is allowed whose only deny is a scope's: the block-list cannot say so. */
  predicate OutOfScope(b: Buckets, n: string) {
    n in b.wholeAllows && n !in b.whole && n !in b.ranges && Covered(n, StandingScopes(b))
  }

  predicate CarvesRange(b: Buckets, n: string) {
    n in b.exactAllows && n in StandingRanges(b)
  }

  predicate CarvesBadly(b: Buckets, a: Adapter, n: string) {
    n in b.exactAllows && n in StandingWhole(b) && exists v | v in b.exactAllows[n] :: !a.valid(CarveOut(v))
  }

  /** No allow asks for something the block-list cannot express. */
  predicate Resolvable(b: Buckets, a: Adapter) {
    && (forall n | n in b.wholeAllows :: !OutOfScope(b, n))
    && (forall n | n in b.exactAllows :: !CarvesRange(b, n) && !CarvesBadly(b, a, n))
  }

  /** The carve-outs of the packages in `names` that were denied whole. */
  function Carved(b: Buckets, names: set<string>): map<string, seq<RangeDeny>>
    requires names <= b.exactAllows.Keys
  {
    map n | n in names && n in StandingWhole(b) :: CarveOuts(Sorted(b.exactAllows[n]), StandingWhole(b)[n])
  }

  function Resolved(b: Buckets): NpmBlocks {
    NpmBlocks(
      Sorted(StandingScopes(b)),
      Sorted((StandingWhole(b) - b.exactAllows.Keys).Keys),
      StandingRanges(b) + Carved(b, b.exactAllows.Keys))
  }

  method ResolveNpm(b: Buckets, a: Adapter) returns (r: Result<NpmBlocks, PolicyError>)
    requires forall n | n in b.exactAllows :: b.exactAllows[n] != {}
    ensures r.Ok? <==> Resolvable(b, a)
    ensures r.Ok? ==> r.value == Resolved(b)
  {
    var error := DropAllowed(b);
    if error.Some? { return Err(error.value); }
    var carved := CarveExacts(b, a);
    if carved.Err? { return Err(carved.error); }
    var whole, ranges := carved.value.0, carved.value.1;
    return Ok(NpmBlocks(Sorted(b.nsDenies - b.nsAllows), Sorted(whole.Keys), ranges));
  }

  /** Whole-package allows: rejects an allow whose only deny is a scope's. */
  method DropAllowed(b: Buckets) returns (error: Option<PolicyError>)
    ensures error.None? <==> forall n | n in b.wholeAllows :: !OutOfScope(b, n)
  {
    var scopes := b.nsDenies - b.nsAllows;
    var whole, ranges := b.whole, b.ranges;
    var todo := b.wholeAllows;
    while todo != {}
      invariant todo <= b.wholeAllows
      invariant whole == b.whole - (b.wholeAllows - todo) && ranges == b.ranges - (b.wholeAllows - todo)
      invariant forall n | n in b.wholeAllows - todo :: !OutOfScope(b, n)
    {
      var name :| name in todo;
      var hadDeny := name in whole || name in ranges;
      whole, ranges := whole - {name}, ranges - {name};
      if !hadDeny && Covered(name, scopes) {
        assert OutOfScope(b, name);
        return Some(PackageOutOfScope);
      }
      todo := todo - {name};
    }
    return None;
  }

  lemma CarvedNext(b: Buckets, done: set<string>, name: string)
    requires done <= b.exactAllows.Keys && name in b.exactAllows.Keys - done
    ensures StandingWhole(b) - (done + {name}) == StandingWhole(b) - done - {name}
    ensures name in StandingWhole(b) ==>
              StandingRanges(b) + Carved(b, done + {name})
              == (StandingRanges(b) + Carved(b, done))
                 [name := CarveOuts(Sorted(b.exactAllows[name]), StandingWhole(b)[name])]
    ensures name !in StandingWhole(b) ==> Carved(b, done + {name}) == Carved(b, done)
  {
    if name in StandingWhole(b) {
      assert Carved(b, done + {name})
          == Carved(b, done)[name := CarveOuts(Sorted(b.exactAllows[name]), StandingWhole(b)[name])];
    }
  }

  /** Exact-version allows: each point is carved out of its whole-package deny. */
  method CarveExacts(b: Buckets, a: Adapter)
    returns (r: Result<(map<string, Option<string>>, map<string, seq<RangeDeny>>), PolicyError>)
    ensures r.Ok? <==> forall n | n in b.exactAllows :: !CarvesRange(b, n) && !CarvesBadly(b, a, n)
    ensures r.Ok? ==>
      r.value == (StandingWhole(b) - b.exactAllows.Keys, StandingRanges(b) + Carved(b, b.exactAllows.Keys))
  {
    var whole, ranges := b.whole - b.wholeAllows, b.ranges - b.wholeAllows;
    var todo := b.exactAllows.Keys;
    ghost var done := {};
    while todo != {}
      invariant todo == b.exactAllows.Keys - done && done <= b.exactAllows.Keys
      invariant whole == StandingWhole(b) - done
      invariant ranges == StandingRanges(b) + Carved(b, done)
      invariant forall n | n in done :: !CarvesRange(b, n) && !CarvesBadly(b, a, n)
      decreases todo
    {
      var name :| name in todo;
      if name in ranges { assert CarvesRange(b, name); return Err(RangeCarving); }
      if name in whole {
        var reason := whole[name];
        var carved := CarveOutsOf(b.exactAllows[name], a, reason);
        if carved.Err? { assert CarvesBadly(b, a, name); return Err(carved.error); }
        whole, ranges := whole - {name}, ranges[name := carved.value];
      }
      CarvedNext(b, done, name);
      todo, done := todo - {name}, done + {name};
    }
    assert done == b.exactAllows.Keys;
    return Ok((whole, ranges));
  }

  /** The carve-outs of one package, in version-text order; fails on one the filter would reject. */
  method CarveOutsOf(versions: set<string>, a: Adapter, reason: Option<string>)
    returns (r: Result<seq<RangeDeny>, PolicyError>)
    ensures r.Ok? <==> forall v | v in versions :: a.valid(CarveOut(v))
    ensures r.Ok? ==> r.value == CarveOuts(Sorted(versions), reason)
  {
    SortedFacts(versions);
    var vs := Sorted(versions);
    var out := [];
    for i := 0 to |vs|
      invariant out == CarveOuts(vs[..i], reason)
      invariant forall v | v in vs[..i] :: a.valid(CarveOut(v))
    {
      assert vs[i] in vs;
      if !a.valid(CarveOut(vs[i])) { return Err(CarveOutInvalid); }
      out := out + [RangeDeny(CarveOut(vs[i]), reason)];
    }
    assert vs[..|vs|] == vs;
    return Ok(out);
  }
}

/** From resolved blocks to the emitted npm document, and the end-to-end npm theorem. */
module NpmEmit {
  import opened Base
  import opened Text
  import opened Rules
  import opened NpmCompiler
  import opened YamlScalar
  import opened NpmFilter
  import opened NpmDocument
  import opened NpmMeaning
  import opened SemverOrder

  /******* The document of the resolved blocks *******/

  /** An empty reason is not printed. */
  function Shown(reason: Option<string>): Option<string> { if reason == Some("") then None else reason }

  function Block(name: string, ds: seq<RangeDeny>): seq<PackageEntry> {
    seq(|ds|, i requires 0 <= i < |ds| => Ranged(name, ds[i].text, Shown(ds[i].reason)))
  }

  function Blocks(names: seq<string>, ranges: map<string, seq<RangeDeny>>): seq<PackageEntry>
    requires forall n | n in names :: n in ranges
  {
    if names == [] then []
    else
      var last := names[|names| - 1];
      Blocks(names[..|names| - 1], ranges) + Block(last, SortByText(ranges[last]))
  }

  function BareEntries(names: seq<string>): seq<PackageEntry> {
    seq(|names|, i requires 0 <= i < |names| => Bare(names[i]))
  }

  function EntriesOf(blocks: NpmBlocks): seq<PackageEntry> {
    BareEntries(blocks.packages) + Blocks(SortedKeys(blocks.ranges), blocks.ranges)
  }

  function DocOf(blocks: NpmBlocks, minAge: string): NpmDoc {
    NpmDoc(minAge,
      if blocks.scopes == [] then None else Some(blocks.scopes),
      if blocks.packages == [] && blocks.ranges == map[] then None else Some(EntriesOf(blocks)))
  }

  /******* _emit_npm *******/

  lemma {:induction false} EntriesLinesAppend(xs: seq<PackageEntry>, ys: seq<PackageEntry>)
    ensures EntriesLines(xs + ys) == EntriesLines(xs) + EntriesLines(ys)
  {
    if xs == [] {
      assert xs + ys == ys;
    } else {
      var zs := xs + ys;
      assert zs[1..] == xs[1..] + ys;
      EntriesLinesAppend(xs[1..], ys);
      var head, mid, tail := EntryLines(zs[0]), EntriesLines(xs[1..]), EntriesLines(ys);
      assert EntriesLines(zs) == head + EntriesLines(zs[1..]);
      assert EntriesLines(xs) == head + mid;
      Associative(head, mid, tail);
    }
  }

  lemma OneEntryMore(xs: seq<PackageEntry>, e: PackageEntry)
    ensures EntriesLines(xs + [e]) == EntriesLines(xs) + EntryLines(e)
  {
    EntriesLinesAppend(xs, [e]);
    assert EntriesLines([e]) == EntryLines(e) + EntriesLines([e][1..]);
  }

  method EmitScopes(scopes: seq<string>) returns (lines: seq<string>)
    ensures lines == ScopeLines(scopes)
  {
    lines := [];
    for i := 0 to |scopes|
      invariant lines + ScopeLines(scopes[i..]) == ScopeLines(scopes)
    {
      assert scopes[i..][1..] == scopes[i + 1..];
      lines := lines + ["    - " + Quote(scopes[i])];
    }
    assert scopes[|scopes|..] == [];
  }

  /** The printed lines of the first `i` ranges. */
  function Printed(ds: seq<RangeDeny>, printer: RangeDeny -> seq<string>, i: nat): seq<string>
    requires i <= |ds|
  {
    if i == 0 then [] else Printed(ds, printer, i - 1) + printer(ds[i - 1])
  }

  /** Validates and prints range by range; the first invalid one is the error. */
  method EmitEach(ds: seq<RangeDeny>, a: Adapter, printer: RangeDeny -> seq<string>)
    returns (r: Result<seq<string>, PolicyError>)
    ensures r.Ok? <==> AllValid(ds, a)
    ensures r.Ok? ==> r.value == Printed(ds, printer, |ds|)
  {
    var lines := [];
    for i := 0 to |ds|
      invariant forall j | 0 <= j < i :: a.valid(ds[j].text)
      invariant lines == Printed(ds, printer, i)
    {
      if !a.valid(ds[i].text) { return Err(InvalidRange); }
      lines := lines + printer(ds[i]);
    }
    return Ok(lines);
  }

  function PrintRange(name: string): RangeDeny -> seq<string> {
    (d: RangeDeny) => EntryLines(Ranged(name, d.text, Shown(d.reason)))
  }

  lemma {:induction false} PrintedIsBlock(name: string, ds: seq<RangeDeny>, i: nat)
    requires i <= |ds|
    ensures Printed(ds, PrintRange(name), i) == EntriesLines(Block(name, ds[..i]))
  {
    if i > 0 {
      var entry := Ranged(name, ds[i - 1].text, Shown(ds[i - 1].reason));
      assert Block(name, ds[..i]) == Block(name, ds[..i - 1]) + [entry];
      OneEntryMore(Block(name, ds[..i - 1]), entry);
      PrintedIsBlock(name, ds, i - 1);
    }
  }

  method EmitBlock(name: string, ds: seq<RangeDeny>, a: Adapter) returns (r: Result<seq<string>, PolicyError>)
    ensures r.Ok? <==> AllValid(ds, a)
    ensures r.Ok? ==> r.value == EntriesLines(Block(name, ds))
  {
    r := EmitEach(ds, a, PrintRange(name));
    PrintedIsBlock(name, ds, |ds|);
    assert ds[..|ds|] == ds;
  }

  method EmitBares(packages: seq<string>) returns (lines: seq<string>)
    ensures lines == EntriesLines(BareEntries(packages))
  {
    lines := [];
    for i := 0 to |packages|
      invariant lines == EntriesLines(BareEntries(packages[..i]))
    {
      assert BareEntries(packages[..i + 1]) == BareEntries(packages[..i]) + [Bare(packages[i])];
      OneEntryMore(BareEntries(packages[..i]), Bare(packages[i]));
      lines := lines + EntryLines(Bare(packages[i]));
    }
    assert packages[..|packages|] == packages;
  }

  /** The first `i` names are printed, and their ranges are valid. */
  ghost predicate Emitted(names: seq<string>, ranges: map<string, seq<RangeDeny>>, a: Adapter, i: nat,
                          lines: seq<string>)
    requires i <= |names| && forall n | n in names :: n in ranges
  {
    lines == EntriesLines(Blocks(names[..i], ranges)) && forall n | n in names[..i] :: AllValid(ranges[n], a)
  }

  lemma OneMoreBlock(names: seq<string>, ranges: map<string, seq<RangeDeny>>, a: Adapter, i: nat, lines: seq<string>)
    requires i < |names| && (forall n | n in names :: n in ranges) && Emitted(names, ranges, a, i, lines)
    ensures names[i] in names
    ensures AllValid(ranges[names[i]], a) ==>
      Emitted(names, ranges, a, i + 1, lines + EntriesLines(Block(names[i], SortByText(ranges[names[i]]))))
  {
    assert names[..i + 1][..i] == names[..i] && names[..i + 1][i] == names[i];
    EntriesLinesAppend(Blocks(names[..i], ranges), Block(names[i], SortByText(ranges[names[i]])));
  }

  lemma AllEmitted(names: seq<string>, ranges: map<string, seq<RangeDeny>>, a: Adapter, lines: seq<string>)
    requires (forall n | n in names :: n in ranges) && Emitted(names, ranges, a, |names|, lines)
    ensures lines == EntriesLines(Blocks(names, ranges)) && forall n | n in names :: AllValid(ranges[n], a)
  {
    assert names[..|names|] == names;
  }

  method EmitBlocks(names: seq<string>, ranges: map<string, seq<RangeDeny>>, a: Adapter)
    returns (r: Result<seq<string>, PolicyError>)
    requires forall n | n in names :: n in ranges
    ensures r.Ok? <==> forall n | n in names :: AllValid(ranges[n], a)
    ensures r.Ok? ==> r.value == EntriesLines(Blocks(names, ranges))
  {
    var lines := [];
    for i := 0 to |names|
      invariant Emitted(names, ranges, a, i, lines)
    {
      OneMoreBlock(names, ranges, a, i, lines);
      SortedValid(ranges[names[i]], a);
      var block := EmitBlock(names[i], SortByText(ranges[names[i]]), a);
      if block.Err? { return Err(block.error); }
      lines := lines + block.value;
    }
    AllEmitted(names, ranges, a, lines);
    return Ok(lines);
  }

  /** Ranges that were validated, and carve-outs that resolved, never trip the last guard. */
  lemma ResolvedRangesValid(b: Buckets, a: Adapter)
    requires Resolvable(b, a) && RangesValid(b, a)
    ensures forall n | n in Resolved(b).ranges :: AllValid(Resolved(b).ranges[n], a)
  {
    var ranges: map<string, seq<RangeDeny>> := Resolved(b).ranges;
    forall n: string, i: int | n in ranges && 0 <= i < |ranges[n]| ensures a.valid(ranges[n][i].text) {
      if n in b.exactAllows && n in StandingWhole(b) {
        SortedFacts(b.exactAllows[n]);
        assert !CarvesBadly(b, a, n);
        assert Sorted(b.exactAllows[n])[i] in Sorted(b.exactAllows[n]);
      } else {
        assert ranges[n] == b.ranges[n];
      }
    }
  }

  method EmitNpm(b: Buckets, a: Adapter, minAge: string, dflt: Action) returns (r: Result<string, PolicyError>)
    requires (forall n | n in b.exactAllows :: b.exactAllows[n] != {}) && RangesValid(b, a)
    ensures r.Ok? <==> dflt.Allow? && Resolvable(b, a)
    ensures r.Ok? ==> r.value == Document(DocOf(Resolved(b), minAge))
  {
    if dflt.Deny? { return Err(DefaultDenyUnsupported); }
    var resolved := ResolveNpm(b, a);
    if resolved.Err? { return Err(resolved.error); }
    var NpmBlocks(scopes, packages, ranges) := resolved.value;
    ghost var doc := DocOf(Resolved(b), minAge);
    ResolvedRangesValid(b, a);
    var lines := ["upstream:", "  min_age: " + Quote(minAge)];
    if scopes == [] && packages == [] && ranges == map[] {
      assert lines == DocLines(doc);
      return Ok(JoinLines(lines) + "\n");
    }
    var blocked := [];
    if scopes != [] {
      var scopeLines := EmitScopes(scopes);
      blocked := ["  scopes:"] + scopeLines;
    }
    if packages != [] || ranges != map[] {
      var names := SortedKeys(ranges);
      var bareLines := EmitBares(packages);
      var rangeLines := EmitBlocks(names, ranges, a);
      assert rangeLines.Ok?; // the guard in EmitBlock never fires here
      EntriesLinesAppend(BareEntries(packages), Blocks(names, ranges));
      blocked := blocked + (["  packages:"] + (bareLines + rangeLines.value));
    }
    assert blocked == BlockedLines(doc);
    lines := lines + (["blocked:"] + blocked);
    return Ok(JoinLines(lines) + "\n");
  }

  /******* The filter compiles the document back to the blocks *******/

  lemma {:induction false} RangesOfBares(names: seq<string>)
    ensures Ranges(BareEntries(names)) == map[]
  {
    if names != [] {
      RangesOfBares(names[..|names| - 1]);
      assert BareEntries(names)[..|names| - 1] == BareEntries(names[..|names| - 1]);
    }
  }

  /** The last entry of a block adds its range. */
  lemma OneMoreRange(before: seq<PackageEntry>, name: string, ds: seq<RangeDeny>)
    requires ds != []
    ensures var n := |ds| - 1;
      var m := Ranges(before + Block(name, ds[..n]));
      Ranges(before + Block(name, ds)) == m[name := RangesFor(m, name) + [ds[n].text]]
  {
    var es := before + Block(name, ds);
    assert es[..|es| - 1] == before + Block(name, ds[..|ds| - 1]);
  }

  lemma {:induction false} RangesOfBlock(before: seq<PackageEntry>, name: string, ds: seq<RangeDeny>)
    requires ds != []
    ensures Ranges(before + Block(name, ds)) == Ranges(before)[name := RangesFor(Ranges(before), name) + Texts(ds)]
  {
    var n := |ds| - 1;
    OneMoreRange(before, name, ds);
    assert Texts(ds) == Texts(ds[..n]) + [ds[n].text];
    if n == 0 {
      assert before + Block(name, ds[..n]) == before;
      assert Texts(ds) == [ds[0].text];
    } else {
      RangesOfBlock(before, name, ds[..n]);
      Associative(RangesFor(Ranges(before), name), Texts(ds[..n]), [ds[n].text]);
    }
  }

  lemma FreshBlock(es: seq<PackageEntry>, name: string, ds: seq<RangeDeny>)
    requires ds != [] && name !in Ranges(es)
    ensures Ranges(es + Block(name, ds)) == Ranges(es)[name := Texts(ds)]
  {
    RangesOfBlock(es, name, ds);
    assert [] + Texts(ds) == Texts(ds);
  }

  lemma {:induction false} RangesOfBlocks(before: seq<PackageEntry>, names: seq<string>,
                                          ranges: map<string, seq<RangeDeny>>)
    requires Ranges(before) == map[] && Ascending(names)
    requires forall n | n in names :: n in ranges && ranges[n] != []
    ensures Ranges(before + Blocks(names, ranges)) == map n | n in names :: Texts(SortByText(ranges[n]))
  {
    if names == [] {
      assert before + Blocks(names, ranges) == before;
    } else {
      var k := |names| - 1;
      var front, last := names[..k], names[k];
      RangesOfBlocks(before, front, ranges);
      AscendingDistinct(names);
      assert last !in front;
      SortKeepsTexts(ranges[last]);
      var ds, es := SortByText(ranges[last]), before + Blocks(front, ranges);
      assert before + Blocks(names, ranges) == es + Block(last, ds) by {
        Associative(before, Blocks(front, ranges), Block(last, ds));
      }
      FreshBlock(es, last, ds);
      OneMoreName(names, ranges, Ranges(es));
    }
  }

  lemma OneMoreName(names: seq<string>, ranges: map<string, seq<RangeDeny>>, m: map<string, seq<string>>)
    requires names != [] && forall n | n in names :: n in ranges
    requires m == map n | n in names[..|names| - 1] :: Texts(SortByText(ranges[n]))
    ensures var last := names[|names| - 1];
            m[last := Texts(SortByText(ranges[last]))] == map n | n in names :: Texts(SortByText(ranges[n]))
  {
    assert forall n :: n in names <==> n in names[..|names| - 1] || n == names[|names| - 1];
  }

  lemma {:induction false} NoBares(names: seq<string>, ranges: map<string, seq<RangeDeny>>)
    requires forall n | n in names :: n in ranges
    ensures forall e | e in Blocks(names, ranges) ::
      e.Ranged? && e.name in names
      && exists d :: d in ranges[e.name] && e.versions == d.text && e.reason == Shown(d.reason)
  {
    if names != [] {
      var last := names[|names| - 1];
      NoBares(names[..|names| - 1], ranges);
      SortFacts(ranges[last]);
      forall e | e in Block(last, SortByText(ranges[last]))
        ensures exists d :: d in ranges[last] && e.versions == d.text && e.reason == Shown(d.reason)
      {
        var i :| 0 <= i < |SortByText(ranges[last])| && e == Block(last, SortByText(ranges[last]))[i];
        var d := SortByText(ranges[last])[i];
        assert d in multiset(SortByText(ranges[last]));
        assert d in ranges[last];
      }
    }
  }

  predicate HasAt(scopes: seq<string>) { forall i | 0 <= i < |scopes| :: scopes[i] != [] && scopes[i][0] == '@' }

  lemma AtScopesKept(scopes: seq<string>)
    requires HasAt(scopes)
    ensures (set s | s in scopes :: WithAt(s)) == set s | s in scopes
  {
    forall s | s in scopes ensures WithAt(s) == s {}
    forall s | s in scopes ensures s in set t | t in scopes :: WithAt(t) { assert WithAt(s) == s; }
  }

  lemma NamesOfEntries(packages: seq<string>, rest: seq<PackageEntry>)
    requires forall e | e in rest :: e.Ranged?
    ensures Names(BareEntries(packages) + rest) == set n | n in packages
  {
    var bare := BareEntries(packages);
    forall n | n in packages ensures n in Names(bare + rest) {
      var i :| 0 <= i < |packages| && packages[i] == n;
      assert bare[i] == Bare(n) && bare[i] in bare + rest;
    }
  }

  /** Compiling the document gives back the scopes, the names, and each name's range texts in order. */
  lemma CompiledIsPolicy(blocks: NpmBlocks, minAge: string, lib: Library)
    requires HasAt(blocks.scopes) && forall n | n in blocks.ranges :: blocks.ranges[n] != []
    requires lib.minAge(minAge).Some?
    ensures Compiled(DocOf(blocks, minAge), lib) == PolicyOf(blocks).(minAgeMs := lib.minAge(minAge).value)
  {
    var doc := DocOf(blocks, minAge);
    var names := SortedKeys(blocks.ranges);
    var bare, rest := BareEntries(blocks.packages), Blocks(names, blocks.ranges);
    SortedFacts(blocks.ranges.Keys);
    assert EntriesIn(doc) == bare + rest;
    AtScopesKept(blocks.scopes);
    RangesOfBares(blocks.packages);
    RangesOfBlocks(bare, names, blocks.ranges);
    NoBares(names, blocks.ranges);
    NamesOfEntries(blocks.packages, rest);
    assert Ranges(bare + rest) == map n | n in blocks.ranges :: Texts(SortByText(blocks.ranges[n]));
  }

  /******* End to end *******/

  /** What the filter demands: a minimum age and ranges it can read, and no blank name. */
  predicate Acceptable(blocks: NpmBlocks, minAge: string, lib: Library) {
    && lib.minAge(minAge).Some? && "" !in blocks.packages && "" !in blocks.ranges
    && forall n | n in blocks.ranges :: forall d | d in blocks.ranges[n] :: lib.read(d.text).Some?
  }

  /** Every range of every package is printed as an entry. */
  lemma {:induction false} RangeIsListed(names: seq<string>, ranges: map<string, seq<RangeDeny>>, n: string,
                                         d: RangeDeny)
    requires forall m | m in names :: m in ranges
    requires n in names && d in ranges[n]
    ensures Ranged(n, d.text, Shown(d.reason)) in Blocks(names, ranges)
  {
    var k := |names| - 1;
    if n == names[k] {
      SortFacts(ranges[n]);
      var sorted := SortByText(ranges[n]);
      assert d in multiset(ranges[n]) && d in multiset(sorted);
      var i :| 0 <= i < |sorted| && sorted[i] == d;
      assert Block(n, sorted)[i] == Ranged(n, d.text, Shown(d.reason));
    } else {
      RangeIsListed(names[..k], ranges, n, d);
    }
  }

  lemma AcceptableDocOf(blocks: NpmBlocks, minAge: string, lib: Library)
    requires Acceptable(blocks, minAge, lib) && HasAt(blocks.scopes)
    ensures Compiles(DocOf(blocks, minAge), lib)
  {
    var names := SortedKeys(blocks.ranges);
    NoBares(names, blocks.ranges);
    var entries := EntriesOf(blocks);
    forall i | 0 <= i < |entries| ensures GoodEntry(entries[i], lib) {
      var k := |blocks.packages|;
      if i < k {
        assert blocks.packages[i] in blocks.packages;
      } else {
        assert entries[i] in Blocks(names, blocks.ranges);
      }
    }
  }

  lemma RangeEntryIsGood(blocks: NpmBlocks, minAge: string, lib: Library, n: string, d: RangeDeny)
    requires Compiles(DocOf(blocks, minAge), lib) && n in blocks.ranges && d in blocks.ranges[n]
    ensures n != "" && lib.read(d.text).Some?
  {
    var entry, listed := Ranged(n, d.text, Shown(d.reason)), Blocks(SortedKeys(blocks.ranges), blocks.ranges);
    RangeIsListed(SortedKeys(blocks.ranges), blocks.ranges, n, d);
    var j :| 0 <= j < |listed| && listed[j] == entry;
    assert EntriesOf(blocks)[|blocks.packages| + j] == entry && GoodEntry(entry, lib);
  }

  lemma CompilesOnlyAcceptable(blocks: NpmBlocks, minAge: string, lib: Library)
    requires Compiles(DocOf(blocks, minAge), lib) && forall n | n in blocks.ranges :: blocks.ranges[n] != []
    ensures Acceptable(blocks, minAge, lib)
  {
    forall i | 0 <= i < |blocks.packages| ensures blocks.packages[i] != "" {
      assert EntriesOf(blocks)[i] == Bare(blocks.packages[i]) && GoodEntry(EntriesOf(blocks)[i], lib);
    }
    forall n, d | n in blocks.ranges && d in blocks.ranges[n] ensures lib.read(d.text).Some? {
      RangeEntryIsGood(blocks, minAge, lib, n, d);
    }
    if "" in blocks.ranges { RangeEntryIsGood(blocks, minAge, lib, "", blocks.ranges[""][0]); }
  }

  /** The filter accepts the document if and only if it can read the minimum age and every range, and no name is
      blank. */
  lemma FilterAcceptsIff(blocks: NpmBlocks, minAge: string, lib: Library)
    requires HasAt(blocks.scopes) && forall n | n in blocks.ranges :: blocks.ranges[n] != []
    ensures Compiles(DocOf(blocks, minAge), lib) <==> Acceptable(blocks, minAge, lib)
  {
    if Acceptable(blocks, minAge, lib) { AcceptableDocOf(blocks, minAge, lib); }
    if Compiles(DocOf(blocks, minAge), lib) { CompilesOnlyAcceptable(blocks, minAge, lib); }
  }

  lemma ResolvedRangesNonempty(b: Buckets)
    requires (forall n | n in b.exactAllows :: b.exactAllows[n] != {}) && forall n | n in b.ranges :: b.ranges[n] != []
    ensures forall n | n in Resolved(b).ranges :: Resolved(b).ranges[n] != []
  {
    forall n | n in Resolved(b).ranges ensures Resolved(b).ranges[n] != [] {
      if n in b.exactAllows && n in StandingWhole(b) { SortedFacts(b.exactAllows[n]); }
    }
  }

  /** Every normalized namespace starts with `@`. */
  ghost predicate PrefixesScopes(a: Adapter) {
    forall ns :: a.normalizeNamespace(ns) != [] && a.normalizeNamespace(ns)[0] == '@'
  }

  lemma ResolvedScopesHaveAt(rules: seq<Rule>, a: Adapter)
    requires Accepted(rules, a)
    requires PrefixesScopes(a)
    ensures HasAt(Resolved(BucketsOf(rules, a)).scopes)
  {
    var b := BucketsOf(rules, a);
    ScopesAreFaithful(rules, a);
    SortedFacts(StandingScopes(b));
    var scopes := Resolved(b).scopes;
    forall i | 0 <= i < |scopes| ensures scopes[i] != [] && scopes[i][0] == '@' {
      assert scopes[i] in scopes;
      assert scopes[i] in b.nsDenies;
      var r :| r in rules && IsScope(r, a, scopes[i], Deny);
    }
  }

  /** The emitted text reads back; the filter compiles it if and only if it can use every name and range,
      and then to the policy of the resolved blocks. */
  lemma EmittedTextCompilesBack(rules: seq<Rule>, a: Adapter, lib: Library, minAge: string)
    requires Accepted(rules, a) && Resolvable(BucketsOf(rules, a), a) && PrefixesScopes(a)
    ensures var doc := ReadDocument(Document(DocOf(Resolved(BucketsOf(rules, a)), minAge)));
            && doc.Some? && doc.value.minAge == minAge
            && (Compiles(doc.value, lib) <==> Acceptable(Resolved(BucketsOf(rules, a)), minAge, lib))
            && (Compiles(doc.value, lib) ==>
                  Compiled(doc.value, lib)
                  == PolicyOf(Resolved(BucketsOf(rules, a))).(minAgeMs := lib.minAge(minAge).value))
  {
    var b := BucketsOf(rules, a);
    BucketsAreFaithful(rules, a);
    ResolvedRangesNonempty(b);
    ResolvedScopesHaveAt(rules, a);
    FilterAcceptsIff(Resolved(b), minAge, lib);
    DocumentRoundTrip(DocOf(Resolved(b), minAge));
    if lib.minAge(minAge).Some? { CompiledIsPolicy(Resolved(b), minAge, lib); }
  }

  /** Rules to text to filter: the text read back blocks exactly what the rules deny,
      for a package whose exact allows do not clash, and not otherwise. */
  lemma NpmEndToEnd(rules: seq<Rule>, a: Adapter, lib: Library, minAge: string, name: string)
    requires Accepted(rules, a) && Resolvable(BucketsOf(rules, a), a) && PrefixesScopes(a)
    requires CarveOutsRead(rules, a, lib, name)
    ensures var doc := ReadDocument(Document(DocOf(Resolved(BucketsOf(rules, a)), minAge)));
            && doc.Some? && (Compiles(doc.value, lib) <==> Acceptable(Resolved(BucketsOf(rules, a)), minAge, lib))
            && (Compiles(doc.value, lib) ==>
                  && Compiled(doc.value, lib).minAgeMs == lib.minAge(minAge).value
                  && ((forall v :: Blocked(Compiled(doc.value, lib), lib, name, v) <==> Denied(rules, a, lib, name, v))
                      <==> !AllowsClash(rules, a, lib, name)))
  {
    EmittedTextCompilesBack(rules, a, lib, minAge);
    TranslationMeaning(rules, a, lib, name);
    var policy := PolicyOf(Resolved(BucketsOf(rules, a)));
    if lib.minAge(minAge).Some? { AgeBlocksNothing(policy, lib.minAge(minAge).value, lib, name); }
  }

  lemma AgeBlocksNothing(policy: CompiledPolicy, ms: real, lib: Library, name: string)
    ensures forall v :: Blocked(policy.(minAgeMs := ms), lib, name, v) <==> Blocked(policy, lib, name, v)
  {
  }

  /** Rules that compile and leave a deny of the blank name standing, whole or by range:
      the filter rejects the whole document. */
  lemma BlankNameFailsClosed(rules: seq<Rule>, a: Adapter, minAge: string, lib: Library)
    requires Accepted(rules, a) && Resolvable(BucketsOf(rules, a), a)
    requires WholeRule(rules, a, "", Deny) || exists t :: RangeDenied(rules, a, "", t)
    requires !WholeRule(rules, a, "", Allow)
    ensures !Compiles(DocOf(Resolved(BucketsOf(rules, a)), minAge), lib)
  {
    BucketsAreFaithful(rules, a);
    var b := BucketsOf(rules, a);
    var blocks := Resolved(b);
    if t :| RangeDenied(rules, a, "", t) {
      RangeDeniesMeaning(rules, a, "");
      assert RangesOf(b, "") != [];
    }
    SortedFacts((StandingWhole(b) - b.exactAllows.Keys).Keys);
    assert "" in blocks.packages || "" in blocks.ranges;
    ResolvedRangesNonempty(b);
    if Compiles(DocOf(blocks, minAge), lib) { CompilesOnlyAcceptable(blocks, minAge, lib); }
  }
}

/** The npm policy document: hand-printed YAML lines, and the reader of that YAML subset. */
module NpmDocument {
  import opened Base
  import opened Text
  import opened YamlScalar
  import opened NpmFilter

  /******* Printing *******/

  function ScopeLines(scopes: seq<string>): seq<string> {
    if scopes == [] then [] else ["    - " + Quote(scopes[0])] + ScopeLines(scopes[1..])
  }

  function EntryLines(e: PackageEntry): seq<string> {
    match e
    case Bare(name) => ["    - " + Quote(name)]
    case Ranged(name, versions, reason) =>
      ["    - name: " + Quote(name), "      versions: " + Quote(versions)]
      + if reason.Some? then ["      reason: " + Quote(reason.value)] else []
  }

  function EntriesLines(entries: seq<PackageEntry>): seq<string> {
    if entries == [] then [] else EntryLines(entries[0]) + EntriesLines(entries[1..])
  }

  function ScopePart(scopes: Option<seq<string>>): seq<string> {
    if scopes.Some? then ["  scopes:"] + ScopeLines(scopes.value) else []
  }

  function PackagePart(packages: Option<seq<PackageEntry>>): seq<string> {
    if packages.Some? then ["  packages:"] + EntriesLines(packages.value) else []
  }

  function BlockedLines(doc: NpmDoc): seq<string> { ScopePart(doc.scopes) + PackagePart(doc.packages) }

  function DocLines(doc: NpmDoc): seq<string> {
    ["upstream:", "  min_age: " + Quote(doc.minAge)]
    + if doc.scopes.None? && doc.packages.None? then [] else ["blocked:"] + BlockedLines(doc)
  }

  function Document(doc: NpmDoc): string { JoinLines(DocLines(doc)) + "\n" }

  /******* Reading *******/

  predicate IsBreak(c: char) { c == '\n' || c == '\r' }

  function Lines(text: string): seq<string> { LinesBy(text, IsBreak) }

  predicate HasPrefix(s: string, p: string) { |p| <= |s| && s[..|p|] == p }

  /** A line of the given lead-in followed by one quoted scalar. */
  function ReadField(line: string, lead: string): Option<string> {
    if HasPrefix(line, lead) then ReadScalar(line[|lead|..]) else None
  }

  /** The leading list items, and the lines after them. */
  function ReadItems(lines: seq<string>): Option<(seq<string>, seq<string>)> {
    if lines == [] || !HasPrefix(lines[0], "    - ") then Some(([], lines))
    else match (ReadField(lines[0], "    - "), ReadItems(lines[1..]))
      case (Some(s), Some((items, rest))) => Some(([s] + items, rest))
      case _ => None
  }

  function ReadRanged(lines: seq<string>): Option<(PackageEntry, seq<string>)>
    requires lines != []
    ensures ReadRanged(lines).Some? ==> |ReadRanged(lines).value.1| < |lines|
  {
    if |lines| < 2 then None
    else match (ReadField(lines[0], "    - name: "), ReadField(lines[1], "      versions: "))
      case (Some(name), Some(versions)) =>
        if |lines| > 2 && HasPrefix(lines[2], "      reason: ") then
          match ReadField(lines[2], "      reason: ")
          case Some(reason) => Some((Ranged(name, versions, Some(reason)), lines[3..]))
          case None => None
        else Some((Ranged(name, versions, None), lines[2..]))
      case _ => None
  }

  function ReadEntry(lines: seq<string>): Option<(PackageEntry, seq<string>)>
    requires lines != []
    ensures ReadEntry(lines).Some? ==> |ReadEntry(lines).value.1| < |lines|
  {
    if HasPrefix(lines[0], "    - name: ") then ReadRanged(lines)
    else match ReadField(lines[0], "    - ")
      case Some(name) => Some((Bare(name), lines[1..]))
      case None => None
  }

  function ReadEntries(lines: seq<string>): Option<seq<PackageEntry>>
    decreases |lines|
  {
    if lines == [] then Some([])
    else match ReadEntry(lines)
      case None => None
      case Some((e, rest)) =>
        match ReadEntries(rest)
        case Some(entries) => Some([e] + entries)
        case None => None
  }

  function ReadPackages(minAge: string, scopes: Option<seq<string>>, lines: seq<string>): Option<NpmDoc> {
    if lines == [] then Some(NpmDoc(minAge, scopes, None))
    else if lines[0] != "  packages:" then None
    else match ReadEntries(lines[1..])
      case Some(entries) => Some(NpmDoc(minAge, scopes, Some(entries)))
      case None => None
  }

  function ReadBlocked(minAge: string, lines: seq<string>): Option<NpmDoc> {
    if lines != [] && lines[0] == "  scopes:" then
      match ReadItems(lines[1..])
      case Some((scopes, rest)) => ReadPackages(minAge, Some(scopes), rest)
      case None => None
    else ReadPackages(minAge, None, lines)
  }

  function ReadLines(lines: seq<string>): Option<NpmDoc> {
    if |lines| < 2 || lines[0] != "upstream:" then None
    else match ReadField(lines[1], "  min_age: ")
      case None => None
      case Some(minAge) =>
        if |lines| == 2 then Some(NpmDoc(minAge, None, None))
        else if lines[2] != "blocked:" then None
        else ReadBlocked(minAge, lines[3..])
  }

  function ReadDocument(text: string): Option<NpmDoc> { ReadLines(Lines(text)) }

  /******* Round trip *******/

  lemma Mismatch(line: string, lead: string, k: nat)
    requires k < |line| && k < |lead| && line[k] != lead[k]
    ensures !HasPrefix(line, lead)
  {
    if |lead| <= |line| { assert line[..|lead|][k] == line[k]; }
  }

  lemma ReadsField(lead: string, s: string)
    ensures HasPrefix(lead + Quote(s), lead)
    ensures ReadField(lead + Quote(s), lead) == Some(s)
  {
    QuoteRoundTrip(s);
    assert (lead + Quote(s))[|lead|..] == Quote(s);
  }

  function ScopeLine(scope: string): string { "    - " + Quote(scope) }

  lemma ScopeLinesFirst(scopes: seq<string>, rest: seq<string>)
    requires scopes != []
    ensures ScopeLines(scopes) + rest == [ScopeLine(scopes[0])] + (ScopeLines(scopes[1..]) + rest)
  {
    var first, others := [ScopeLine(scopes[0])], ScopeLines(scopes[1..]);
    assert ScopeLines(scopes) == first + others;
    Associative(first, others, rest);
  }

  lemma ReadsOneItem(scope: string, tail: seq<string>)
    ensures ReadItems([ScopeLine(scope)] + tail) ==
      if ReadItems(tail).None? then None
      else Some(([scope] + ReadItems(tail).value.0, ReadItems(tail).value.1))
  {
    ReadsField("    - ", scope);
    assert ([ScopeLine(scope)] + tail)[1..] == tail;
  }

  lemma {:induction false} ReadsItems(scopes: seq<string>, rest: seq<string>)
    requires rest != [] ==> !HasPrefix(rest[0], "    - ")
    ensures ReadItems(ScopeLines(scopes) + rest) == Some((scopes, rest))
  {
    if scopes == [] {
      assert ScopeLines(scopes) + rest == rest;
    } else {
      var first, tail := ScopeLine(scopes[0]), ScopeLines(scopes[1..]) + rest;
      ReadsItems(scopes[1..], rest);
      ScopeLinesFirst(scopes, rest);
      ReadsOneItem(scopes[0], tail);
      assert [scopes[0]] + scopes[1..] == scopes;
    }
  }

  lemma ReadsRanged(e: PackageEntry, rest: seq<string>)
    requires e.Ranged? && (rest != [] ==> !HasPrefix(rest[0], "      reason: "))
    ensures ReadRanged(EntryLines(e) + rest) == Some((e, rest))
  {
    var lines := EntryLines(e) + rest;
    ReadsField("    - name: ", e.name);
    ReadsField("      versions: ", e.versions);
    if e.reason.Some? {
      ReadsField("      reason: ", e.reason.value);
      assert lines[3..] == rest;
    } else {
      assert lines[2..] == rest;
      if rest != [] { assert lines[2] == rest[0]; }
    }
  }

  lemma ReadsEntry(e: PackageEntry, rest: seq<string>)
    requires rest != [] ==> !HasPrefix(rest[0], "      reason: ")
    ensures ReadEntry(EntryLines(e) + rest) == Some((e, rest))
  {
    var line := EntryLines(e)[0];
    if e.Bare? {
      Mismatch(line, "    - name: ", 6);
      ReadsField("    - ", e.name);
      assert (EntryLines(e) + rest)[1..] == rest;
    } else {
      ReadsField("    - name: ", e.name);
      ReadsRanged(e, rest);
    }
  }

  lemma EntryStart(e: PackageEntry)
    ensures EntryLines(e) != [] && !HasPrefix(EntryLines(e)[0], "      reason: ")
  {
    Mismatch(EntryLines(e)[0], "      reason: ", 4);
  }

  /** No entry starts with a reason. */
  lemma EntriesStart(entries: seq<PackageEntry>)
    ensures var lines := EntriesLines(entries); lines != [] ==> !HasPrefix(lines[0], "      reason: ")
  {
    if entries != [] { EntryStart(entries[0]); }
  }

  lemma ReadsOneEntry(e: PackageEntry, tail: seq<string>)
    requires tail != [] ==> !HasPrefix(tail[0], "      reason: ")
    ensures ReadEntries(EntryLines(e) + tail) ==
      if ReadEntries(tail).None? then None else Some([e] + ReadEntries(tail).value)
  {
    EntryStart(e);
    ReadsEntry(e, tail);
  }

  lemma {:induction false} ReadsEntries(entries: seq<PackageEntry>)
    ensures ReadEntries(EntriesLines(entries)) == Some(entries)
  {
    if entries != [] {
      ReadsEntries(entries[1..]);
      EntriesStart(entries[1..]);
      ReadsOneEntry(entries[0], EntriesLines(entries[1..]));
      assert entries == [entries[0]] + entries[1..];
    }
  }

  lemma ReadsPackages(doc: NpmDoc)
    ensures ReadPackages(doc.minAge, doc.scopes, PackagePart(doc.packages)) == Some(doc)
  {
    if doc.packages.Some? {
      ReadsEntries(doc.packages.value);
      assert PackagePart(doc.packages)[1..] == EntriesLines(doc.packages.value);
    }
  }

  /** Package lines are no scope lines. */
  lemma PackagePartStart(packages: Option<seq<PackageEntry>>)
    ensures var lines := PackagePart(packages);
      lines != [] ==> !HasPrefix(lines[0], "    - ") && lines[0] != "  scopes:"
  {
    Mismatch("  packages:", "    - ", 2);
    Mismatch("  packages:", "  scopes:", 2);
  }

  lemma ReadsHeader(minAge: string, tail: seq<string>)
    requires ReadItems(tail).Some?
    ensures ReadBlocked(minAge, ["  scopes:"] + tail)
         == ReadPackages(minAge, Some(ReadItems(tail).value.0), ReadItems(tail).value.1)
  {
    assert (["  scopes:"] + tail)[1..] == tail;
  }

  lemma ReadsScopes(minAge: string, scopes: seq<string>, rest: seq<string>)
    requires rest != [] ==> !HasPrefix(rest[0], "    - ")
    ensures ReadBlocked(minAge, ScopePart(Some(scopes)) + rest) == ReadPackages(minAge, Some(scopes), rest)
  {
    ReadsItems(scopes, rest);
    Associative(["  scopes:"], ScopeLines(scopes), rest);
    ReadsHeader(minAge, ScopeLines(scopes) + rest);
  }

  lemma ReadsBlocked(doc: NpmDoc)
    ensures ReadBlocked(doc.minAge, BlockedLines(doc)) == Some(doc)
  {
    var rest := PackagePart(doc.packages);
    ReadsPackages(doc);
    PackagePartStart(doc.packages);
    if doc.scopes.Some? {
      ReadsScopes(doc.minAge, doc.scopes.value, rest);
    } else {
      assert ScopePart(doc.scopes) + rest == rest;
    }
  }

  /** The printed lines are read back as the document. */
  lemma ReadsLines(doc: NpmDoc)
    ensures ReadLines(DocLines(doc)) == Some(doc)
  {
    var lines := DocLines(doc);
    ReadsField("  min_age: ", doc.minAge);
    if doc.scopes.Some? || doc.packages.Some? {
      ReadsBlocked(doc);
      assert lines[3..] == BlockedLines(doc);
    } else {
      assert lines == ["upstream:", "  min_age: " + Quote(doc.minAge)];
    }
  }

  /** How a document with one scope, one bare package and one range of another package is laid out. */
  lemma Layout(age: string, scope: string, bare: string, name: string, versions: string, reason: string)
    ensures DocLines(NpmDoc(age, Some([scope]), Some([Bare(bare), Ranged(name, versions, Some(reason))]))) ==
      ["upstream:", "  min_age: " + Quote(age), "blocked:",
       "  scopes:", "    - " + Quote(scope),
       "  packages:", "    - " + Quote(bare),
       "    - name: " + Quote(name), "      versions: " + Quote(versions), "      reason: " + Quote(reason)]
  {
    var e := Ranged(name, versions, Some(reason));
    var entries := [Bare(bare), e];
    assert entries[1..] == [e] && [e][1..] == [] && [scope][1..] == [];
    assert EntriesLines([e]) == EntryLines(e) + [];
    assert EntriesLines(entries) == ["    - " + Quote(bare)] + EntriesLines([e]);
    assert ScopeLines([scope]) == ["    - " + Quote(scope)] + ScopeLines([scope][1..]);
    LayoutOf(NpmDoc(age, Some([scope]), Some(entries)), ["    - " + Quote(scope)],
             ["    - " + Quote(bare), "    - name: " + Quote(name), "      versions: " + Quote(versions),
              "      reason: " + Quote(reason)]);
  }

  lemma LayoutOf(doc: NpmDoc, scopeLines: seq<string>, entryLines: seq<string>)
    requires doc.scopes.Some? && ScopeLines(doc.scopes.value) == scopeLines
    requires doc.packages.Some? && EntriesLines(doc.packages.value) == entryLines
    ensures DocLines(doc) == ["upstream:", "  min_age: " + Quote(doc.minAge), "blocked:", "  scopes:"] + scopeLines
                             + ["  packages:"] + entryLines
  {
  }

  /******* Lines of the text *******/

  predicate AllOneLine(lines: seq<string>) { forall i | 0 <= i < |lines| :: OneLine(lines[i]) }

  lemma QuotedLine(lead: string, s: string)
    requires OneLine(lead)
    ensures OneLine(lead + Quote(s))
  {
    QuoteStaysOnLine(s);
  }

  lemma {:induction false} ScopeLinesOneLine(scopes: seq<string>)
    ensures AllOneLine(ScopeLines(scopes))
  {
    if scopes != [] {
      QuotedLine("    - ", scopes[0]);
      ScopeLinesOneLine(scopes[1..]);
    }
  }

  lemma EntryLinesOneLine(e: PackageEntry)
    ensures AllOneLine(EntryLines(e))
  {
    QuotedLine("    - ", e.name);
    if e.Ranged? {
      QuotedLine("    - name: ", e.name);
      QuotedLine("      versions: ", e.versions);
      if e.reason.Some? { QuotedLine("      reason: ", e.reason.value); }
    }
  }

  lemma {:induction false} EntriesLinesOneLine(entries: seq<PackageEntry>)
    ensures AllOneLine(EntriesLines(entries))
  {
    if entries != [] {
      EntryLinesOneLine(entries[0]);
      EntriesLinesOneLine(entries[1..]);
    }
  }

  lemma OneLineConcat(a: seq<string>, b: seq<string>)
    requires AllOneLine(a) && AllOneLine(b)
    ensures AllOneLine(a + b)
  {
  }

  lemma ScopePartOneLine(scopes: Option<seq<string>>)
    ensures AllOneLine(ScopePart(scopes))
  {
    if scopes.Some? {
      ScopeLinesOneLine(scopes.value);
      OneLineConcat(["  scopes:"], ScopeLines(scopes.value));
    }
  }

  lemma PackagePartOneLine(packages: Option<seq<PackageEntry>>)
    ensures AllOneLine(PackagePart(packages))
  {
    if packages.Some? {
      EntriesLinesOneLine(packages.value);
      OneLineConcat(["  packages:"], EntriesLines(packages.value));
    }
  }

  lemma BlockedLinesOneLine(doc: NpmDoc)
    ensures AllOneLine(BlockedLines(doc))
  {
    ScopePartOneLine(doc.scopes);
    PackagePartOneLine(doc.packages);
    OneLineConcat(ScopePart(doc.scopes), PackagePart(doc.packages));
  }

  lemma DocLinesOneLine(doc: NpmDoc)
    ensures AllOneLine(DocLines(doc))
  {
    QuotedLine("  min_age: ", doc.minAge);
    var upstream := ["upstream:", "  min_age: " + Quote(doc.minAge)];
    assert AllOneLine(upstream);
    BlockedLinesOneLine(doc);
    OneLineConcat(["blocked:"], BlockedLines(doc));
    OneLineConcat(upstream, if doc.scopes.None? && doc.packages.None? then [] else ["blocked:"] + BlockedLines(doc));
  }

  /** The whole document as text is read back as the document, whatever its texts are. */
  lemma DocumentRoundTrip(doc: NpmDoc)
    ensures ReadDocument(Document(doc)) == Some(doc)
  {
    DocLinesOneLine(doc);
    JoinTerminated(DocLines(doc));
    assert forall line :: OneLine(line) ==> Unbroken(line, IsBreak);
    LinesOfTerminated(DocLines(doc), IsBreak);
    ReadsLines(doc);
  }
}

/** How the two adapters normalize names. */
module Names {
  import opened Base
  import opened Text
  import opened Rules
  import DevpiConstraints

  /** `str.lower`, of which only this is used: it is idempotent, leaves nothing to strip, and makes no separators. */
  type Lowering = string -> string

  ghost predicate Lowers(lower: Lowering) {
    lower("") == "" && forall s: string ::
      && lower(lower(s)) == lower(s)
      && (Stripped(s) ==> Stripped(lower(s)))
      && (SingleDashes(s) ==> SingleDashes(lower(s)))
  }

  function LowerChar(c: char): char { if 'A' <= c <= 'Z' then c + ('a' - 'A') else c }

  /** Lowering ASCII letters only. */
  function Lower(s: string): string { seq(|s|, i requires 0 <= i < |s| => LowerChar(s[i])) }

  lemma LowerCharFacts(c: char)
    ensures LowerChar(LowerChar(c)) == LowerChar(c) && (IsSpace(LowerChar(c)) <==> IsSpace(c))
    ensures (IsSeparator(LowerChar(c)) <==> IsSeparator(c)) && (LowerChar(c) == '-' <==> c == '-')
  {
  }

  /** No capital of ASCII is left, each is its small letter, and everything else is kept. */
  lemma LowerLowers()
    ensures Lowers(Lower)
    ensures forall s: string, i | 0 <= i < |s| ::
      && !('A' <= Lower(s)[i] <= 'Z')
      && (if 'A' <= s[i] <= 'Z' then Lower(s)[i] as int == s[i] as int + 32 else Lower(s)[i] == s[i])
  {
    forall s: string
      ensures Lower(Lower(s)) == Lower(s)
      ensures Stripped(s) ==> Stripped(Lower(s))
      ensures SingleDashes(s) ==> SingleDashes(Lower(s))
    {
      forall i | 0 <= i < |s| ensures LowerChar(LowerChar(s[i])) == LowerChar(s[i]) { LowerCharFacts(s[i]); }
      forall c { LowerCharFacts(c); }
    }
  }

  /******* npm *******/

  function NpmName(raw: string, lower: Lowering): string { lower(Strip(raw)) }

  /** A name without space around it that lowering keeps is kept, so that normalizing twice is normalizing once. */
  lemma NpmNameIsIdempotent(raw: string, lower: Lowering)
    requires Lowers(lower)
    ensures Stripped(raw) && lower(raw) == raw ==> NpmName(raw, lower) == raw
    ensures Stripped(raw) ==> NpmName(lower(raw), lower) == NpmName(raw, lower)
    ensures NpmName(NpmName(raw, lower), lower) == NpmName(raw, lower)
  {
    StripFacts(raw);
    StripFacts(lower(Strip(raw)));
    StripFacts(lower(raw));
  }

  function NpmNamespace(raw: string): string {
    var ns := Strip(raw);
    if "@" <= ns then ns else "@" + ns
  }

  /** A namespace always starts with `@`, and stays as it is when normalized again. */
  lemma NpmNamespaceFacts(raw: string)
    ensures NpmNamespace(raw) != [] && NpmNamespace(raw)[0] == '@'
    ensures NpmNamespace(NpmNamespace(raw)) == NpmNamespace(raw)
    ensures raw != [] && Stripped(raw) && raw[0] != '@' ==> NpmNamespace(raw) == "@" + raw == NpmNamespace("@" + raw)
  {
    StripFacts("@" + raw);
    StripFacts(raw);
    var ns := NpmNamespace(raw);
    assert Stripped(ns);
    StripFacts(ns);
  }

  /******* pypi *******/

  predicate IsSeparator(c: char) { c == '-' || c == '_' || c == '.' }

  /** Every run of separators becomes one dash. */
  function Dashed(s: string): string {
    if s == [] then []
    else if !IsSeparator(s[0]) then [s[0]] + Dashed(s[1..])
    else if |s| > 1 && IsSeparator(s[1]) then Dashed(s[1..])
    else ['-'] + Dashed(s[1..])
  }

  predicate IsAlnum(c: char) { 'a' <= c <= 'z' || '0' <= c <= '9' }

  /** The shape of a normalized project name: letters and digits, with dashes inside only. */
  predicate PypiShape(s: string) {
    s != [] && IsAlnum(s[0]) && IsAlnum(s[|s| - 1]) && forall i | 0 <= i < |s| :: IsAlnum(s[i]) || s[i] == '-'
  }

  function PypiName(raw: string, lower: Lowering): Option<string> {
    var normalized := lower(Dashed(Strip(raw)));
    if PypiShape(normalized) then Some(normalized) else None
  }

  /** No two separators in a row, and only dashes. */
  predicate SingleDashes(s: string) {
    && (forall i | 0 <= i < |s| && IsSeparator(s[i]) :: s[i] == '-')
    && (forall i | 0 <= i < |s| - 1 && IsSeparator(s[i]) :: !IsSeparator(s[i + 1]))
  }

  lemma {:induction false} DashedFacts(s: string)
    ensures SingleDashes(Dashed(s)) && (SingleDashes(s) ==> Dashed(s) == s)
    ensures s != [] ==> Dashed(s) != [] && (IsSeparator(Dashed(s)[0]) <==> IsSeparator(s[0]))
  {
    if s != [] {
      DashedFacts(s[1..]);
      if SingleDashes(s) {
        forall i | 0 <= i < |s[1..]| && IsSeparator(s[1..][i])
          ensures s[1..][i] == '-'
        {
          assert s[1..][i] == s[i + 1];
        }
        forall i | 0 <= i < |s[1..]| - 1 && IsSeparator(s[1..][i])
          ensures !IsSeparator(s[1..][i + 1])
        {
          assert s[1..][i] == s[i + 1];
        }
        assert SingleDashes(s[1..]) && [s[0]] + s[1..] == s;
      }
    }
  }

  /** A normalized name is a name devpi reads as itself, and normalizing it again changes nothing. */
  lemma PypiNameFacts(raw: string, lower: Lowering)
    requires Lowers(lower) && PypiName(raw, lower).Some?
    ensures var n := PypiName(raw, lower).value;
      DevpiConstraints.NormalName(n) && SingleDashes(n) && PypiName(n, lower) == Some(n)
  {
    var n := lower(Dashed(Strip(raw)));
    DashedFacts(Strip(raw));
    DashedFacts(n);
    StripFacts(n);
  }

  /** Spellings that differ in case name one project. */
  lemma CaseDoesNotMatter(raw: string, lower: Lowering)
    requires Lowers(lower) && Stripped(raw) && SingleDashes(raw)
    ensures PypiName(lower(raw), lower) == PypiName(raw, lower)
  {
    DashedFacts(raw);
    DashedFacts(lower(raw));
    StripFacts(raw);
    StripFacts(lower(raw));
  }

  lemma SeparatorsAlike(ys: string, c: char, d: char)
    requires IsSeparator(c) && IsSeparator(d)
    ensures Dashed([c] + ys) == Dashed([d] + ys)
  {
    assert ([c] + ys)[1..] == ys && ([d] + ys)[1..] == ys;
  }

  lemma RepeatedSeparator(ys: string, c: char, d: char)
    requires IsSeparator(c) && IsSeparator(d)
    ensures Dashed([c, d] + ys) == Dashed([c] + ys)
  {
    assert ([c, d] + ys)[1..] == [d] + ys;
    SeparatorsAlike(ys, c, d);
  }

  /** Spellings that differ in a separator, or in how often it is repeated, name one project. */
  lemma SpellingsAgree(xs: string, ys: string, c: char, d: char, lower: Lowering)
    requires c in {'-', '_', '.'} && d in {'-', '_', '.'}
    ensures lower(Dashed(xs + [c] + ys)) == lower(Dashed(xs + [d] + ys))
    ensures lower(Dashed(xs + [c, d] + ys)) == lower(Dashed(xs + [c] + ys))
  {
    SeparatorsAlike(ys, c, d);
    RepeatedSeparator(ys, c, d);
    DashedSame(xs, [c] + ys, [d] + ys);
    DashedSame(xs, [c, d] + ys, [c] + ys);
    Associative(xs, [c], ys);
    Associative(xs, [d], ys);
    Associative(xs, [c, d], ys);
  }

  lemma {:induction false} DashedSame(xs: string, us: string, vs: string)
    requires us != [] && vs != [] && IsSeparator(us[0]) && IsSeparator(vs[0])
    ensures Dashed(us) == Dashed(vs) ==> Dashed(xs + us) == Dashed(xs + vs)
  {
    if xs == [] {
      assert xs + us == us && xs + vs == vs;
    } else {
      DashedSame(xs[1..], us, vs);
      assert (xs + us)[1..] == xs[1..] + us && (xs + vs)[1..] == xs[1..] + vs;
    }
  }

  /** A small letter or a digit is a name. */
  lemma ShortestNames(c: char, lower: Lowering)
    requires ('a' <= c <= 'z' || '0' <= c <= '9') && lower([c]) == [c]
    ensures PypiName([c], lower) == Some([c])
  {
    StripFacts([c]);
    DashedFacts([c]);
  }

  /** Two of them with a dash between are one, however the dash is spelled. */
  lemma DashedNames(c: char, sep: char, d: char, lower: Lowering)
    requires IsAlnum(c) && IsAlnum(d) && sep in {'-', '_', '.'} && lower([c, '-', d]) == [c, '-', d]
    ensures PypiName([c, sep, d], lower) == Some([c, '-', d])
  {
    StripFacts([c, sep, d]);
    DashedFacts([c, '-', d]);
    SpellingsAgree([c], [d], sep, '-', lower);
    assert [c] + [sep] + [d] == [c, sep, d] && [c] + ['-'] + [d] == [c, '-', d];
  }
}

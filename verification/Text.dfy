/** Strings as the Python services use them: order, sorting, stripping, lines. */
module Text {
  import opened Base

  /******* Order *******/

  /** Python's `<` on `str`: lexicographic by code point. */
  predicate Before(a: string, b: string) {
    b != [] && (a == [] || a[0] < b[0] || (a[0] == b[0] && Before(a[1..], b[1..])))
  }

  lemma {:induction false} BeforeTotal(a: string, b: string)
    ensures Before(a, b) || a == b || Before(b, a)
  {
    if a != [] && b != [] && a[0] == b[0] {
      BeforeTotal(a[1..], b[1..]);
      assert a[1..] == b[1..] ==> a == [a[0]] + a[1..] == b;
    }
  }

  lemma {:induction false} BeforeAsymmetric(a: string, b: string)
    ensures !(Before(a, b) && Before(b, a))
  {
    if a != [] && b != [] && a[0] == b[0] {
      BeforeAsymmetric(a[1..], b[1..]);
    }
  }

  lemma {:induction false} BeforeTransitive(a: string, b: string, c: string)
    requires Before(a, b) && Before(b, c)
    ensures Before(a, c)
  {
    if a != [] && a[0] == b[0] && b[0] == c[0] {
      BeforeTransitive(a[1..], b[1..], c[1..]);
    }
  }

  /** The texts agree up to `k`, and there the first one ends or has the smaller character. */
  predicate BeforeAt(a: string, b: string, k: nat) {
    k <= |a| && k < |b| && a[..k] == b[..k] && (k == |a| || a[k] < b[k])
  }

  /** A text comes before another iff it is smaller, or ends, at their first difference. */
  lemma {:induction false} BeforeMeaning(a: string, b: string)
    ensures Before(a, b) <==> exists k: nat :: BeforeAt(a, b, k)
  {
    if a != [] && b != [] && a[0] == b[0] {
      BeforeMeaning(a[1..], b[1..]);
      if k: nat :| BeforeAt(a[1..], b[1..], k) {
        assert a[..k + 1] == [a[0]] + a[1..][..k] && b[..k + 1] == [b[0]] + b[1..][..k];
        assert BeforeAt(a, b, k + 1);
      }
      if k: nat :| BeforeAt(a, b, k) {
        assert a[1..][..k - 1] == a[..k][1..] && b[1..][..k - 1] == b[..k][1..];
        assert BeforeAt(a[1..], b[1..], k - 1);
      }
    } else {
      if Before(a, b) { assert BeforeAt(a, b, 0); }
      AgreesAtStart(a, b);
    }
  }

  lemma AgreesAtStart(a: string, b: string)
    ensures forall k: nat | BeforeAt(a, b, k) && k > 0 :: a != [] && b != [] && a[0] == b[0]
  {
    forall k: nat | BeforeAt(a, b, k) && k > 0 ensures a != [] && b != [] && a[0] == b[0] {
      assert a[0] == a[..k][0] && b[0] == b[..k][0];
    }
  }

  /******* sorted() on a set of strings *******/

  predicate IsLeast(x: string, s: set<string>) {
    x in s && forall y | y in s && y != x :: Before(x, y)
  }

  lemma {:induction false} LeastExists(s: set<string>)
    requires s != {}
    ensures exists x :: IsLeast(x, s)
  {
    var x :| x in s;
    if s == {x} {
      assert IsLeast(x, s);
    } else {
      LeastExists(s - {x});
      var l :| IsLeast(l, s - {x});
      BeforeTotal(x, l);
      if Before(x, l) {
        forall y | y in s && y != x ensures Before(x, y) {
          if y != l { BeforeTransitive(x, l, y); }
        }
        assert IsLeast(x, s);
      } else {
        assert IsLeast(l, s);
      }
    }
  }

  lemma LeastUnique(s: set<string>)
    ensures forall x, y :: IsLeast(x, s) && IsLeast(y, s) ==> x == y
  {
    forall x, y | IsLeast(x, s) && IsLeast(y, s) ensures x == y {
      BeforeAsymmetric(x, y);
    }
  }

  /** `sorted(s)`: the least element first, then the rest. */
  function Sorted(s: set<string>): (r: seq<string>) {
    if s == {} then []
    else
      LeastExists(s);
      LeastUnique(s);
      var x :| x in s && IsLeast(x, s);
      [x] + Sorted(s - {x})
  }

  ghost predicate Ascending(q: seq<string>) {
    forall i, j :: 0 <= i < j < |q| ==> Before(q[i], q[j])
  }

  /** One step of the recursion: the least element, then the rest. */
  lemma SortedStep(s: set<string>, x: string)
    requires IsLeast(x, s)
    ensures Sorted(s) == [x] + Sorted(s - {x})
  {
    LeastUnique(s);
  }

  lemma AscendingCons(x: string, rest: seq<string>)
    requires Ascending(rest) && forall y | y in rest :: Before(x, y)
    ensures Ascending([x] + rest)
  {
    var q := [x] + rest;
    forall i, j | 0 <= i < j < |q| ensures Before(q[i], q[j]) {
      assert q[j] == rest[j - 1] && q[j] in rest;
      if i > 0 { assert q[i] == rest[i - 1]; }
    }
  }

  /** The sorted list holds each element of the set once, in ascending order. */
  lemma {:induction false} SortedFacts(s: set<string>)
    ensures |Sorted(s)| == |s|
    ensures forall x :: x in Sorted(s) <==> x in s
    ensures Ascending(Sorted(s))
  {
    if s != {} {
      LeastExists(s);
      var x :| IsLeast(x, s);
      SortedStep(s, x);
      SortedFacts(s - {x});
      AscendingCons(x, Sorted(s - {x}));
    }
  }

  function SortedKeys<V>(m: map<string, V>): (r: seq<string>)
    ensures forall n :: n in r <==> n in m
    ensures Ascending(r)
  {
    SortedFacts(m.Keys);
    Sorted(m.Keys)
  }

  lemma AscendingDistinct(q: seq<string>)
    requires Ascending(q)
    ensures forall i, j :: 0 <= i < j < |q| ==> q[i] != q[j]
  {
    forall i, j | 0 <= i < j < |q| ensures q[i] != q[j] {
      BeforeAsymmetric(q[i], q[j]);
    }
  }

  lemma Associative<T>(a: seq<T>, b: seq<T>, c: seq<T>)
    ensures a + (b + c) == (a + b) + c
  {
  }

  /******* strip() *******/

  /** The characters for which Python's `str.isspace` holds. */
  predicate IsSpace(c: char) {
    '\t' <= c <= '\r' || '\U{1C}' <= c <= ' ' || c == '\U{85}' || c == '\U{A0}' || c == '\U{1680}'
    || '\U{2000}' <= c <= '\U{200A}' || c == '\U{2028}' || c == '\U{2029}' || c == '\U{202F}'
    || c == '\U{205F}' || c == '\U{3000}'
  }

  function StripLeft(s: string): (r: string) {
    if s != [] && IsSpace(s[0]) then StripLeft(s[1..]) else s
  }

  function StripRight(s: string): (r: string) {
    if s != [] && IsSpace(s[|s| - 1]) then StripRight(s[..|s| - 1]) else s
  }

  function Strip(s: string): string {
    StripRight(StripLeft(s))
  }

  /** Nothing to strip: empty, or no space at either end. */
  predicate Stripped(s: string) {
    s == [] || (!IsSpace(s[0]) && !IsSpace(s[|s| - 1]))
  }

  lemma {:induction false} StripRightKeepsFront(s: string)
    ensures StripRight(s) <= s
    ensures s != [] && !IsSpace(s[0]) ==> StripRight(s) != []
    ensures StripRight(s) != [] ==> !IsSpace(StripRight(s)[|StripRight(s)| - 1])
  {
    if s != [] && IsSpace(s[|s| - 1]) {
      StripRightKeepsFront(s[..|s| - 1]);
    }
  }

  lemma {:induction false} StripLeftFront(s: string)
    ensures StripLeft(s) == [] || !IsSpace(StripLeft(s)[0])
  {
    if s != [] && IsSpace(s[0]) {
      StripLeftFront(s[1..]);
    }
  }

  /** `strip` reaches a stripped string, and leaves a stripped string alone. */
  lemma StripFacts(s: string)
    ensures Stripped(Strip(s))
    ensures Stripped(s) ==> Strip(s) == s
  {
    StripLeftFront(s);
    StripRightKeepsFront(StripLeft(s));
  }

  /******* Lines *******/

  /** `"\n".join(lines)` */
  function JoinLines(lines: seq<string>): string {
    if lines == [] then []
    else if |lines| == 1 then lines[0]
    else lines[0] + "\n" + JoinLines(lines[1..])
  }

  /** The text of a list of lines, each ended by a newline. */
  function Terminated(lines: seq<string>): string {
    if lines == [] then [] else lines[0] + "\n" + Terminated(lines[1..])
  }

  lemma {:induction false} JoinTerminated(lines: seq<string>)
    requires lines != []
    ensures JoinLines(lines) + "\n" == Terminated(lines)
  {
    if |lines| > 1 {
      JoinTerminated(lines[1..]);
      calc {
        JoinLines(lines) + "\n";
        lines[0] + "\n" + (JoinLines(lines[1..]) + "\n");
        Terminated(lines);
      }
    } else {
      assert lines[1..] == [];
    }
  }

  /** The lines of a text whose line breaks are the characters of `brk`; a last break ends a line. */
  function LinesBy(text: string, brk: char -> bool): seq<string> {
    if text == [] then []
    else
      var rest := LinesBy(text[1..], brk);
      if brk(text[0]) then [""] + rest
      else if rest == [] then [[text[0]]]
      else [[text[0]] + rest[0]] + rest[1..]
  }

  predicate Unbroken(s: string, brk: char -> bool) { forall i | 0 <= i < |s| :: !brk(s[i]) }

  lemma {:induction false} FirstLine(line: string, rest: string, brk: char -> bool)
    requires Unbroken(line, brk) && brk('\n')
    ensures LinesBy(line + "\n" + rest, brk) == [line] + LinesBy(rest, brk)
  {
    var text := line + "\n" + rest;
    if line == [] {
      assert text[1..] == rest;
    } else {
      FirstLine(line[1..], rest, brk);
      assert text[1..] == line[1..] + "\n" + rest;
      assert [line[0]] + line[1..] == line;
    }
  }

  lemma {:induction false} LinesOfTerminated(lines: seq<string>, brk: char -> bool)
    requires brk('\n') && forall i | 0 <= i < |lines| :: Unbroken(lines[i], brk)
    ensures LinesBy(Terminated(lines), brk) == lines
  {
    if lines != [] {
      FirstLine(lines[0], Terminated(lines[1..]), brk);
      LinesOfTerminated(lines[1..], brk);
    }
  }

  /******* split(sep) and sep.join *******/

  function SplitOn(text: string, sep: char): (r: seq<string>)
    ensures r != []
  {
    if text == [] then [[]]
    else
      var rest := SplitOn(text[1..], sep);
      if text[0] == sep then [[]] + rest else [[text[0]] + rest[0]] + rest[1..]
  }

  function JoinWith(parts: seq<string>, sep: char): string {
    if parts == [] then []
    else if |parts| == 1 then parts[0]
    else parts[0] + [sep] + JoinWith(parts[1..], sep)
  }

  lemma {:induction false} SplitFirst(part: string, rest: string, sep: char)
    requires sep !in part
    ensures SplitOn(part, sep) == [part]
    ensures SplitOn(part + [sep] + rest, sep) == [part] + SplitOn(rest, sep)
  {
    var text := part + [sep] + rest;
    if part == [] {
      assert text[1..] == rest;
    } else {
      SplitFirst(part[1..], rest, sep);
      assert text[1..] == part[1..] + [sep] + rest;
      assert [part[0]] + part[1..] == part;
    }
  }

  lemma {:induction false} SplitJoin(parts: seq<string>, sep: char)
    requires parts != [] && forall i | 0 <= i < |parts| :: sep !in parts[i]
    ensures SplitOn(JoinWith(parts, sep), sep) == parts
  {
    if |parts| == 1 {
      SplitFirst(parts[0], "", sep);
    } else {
      SplitFirst(parts[0], JoinWith(parts[1..], sep), sep);
      SplitJoin(parts[1..], sep);
    }
  }

  lemma {:induction false} JoinSplit(text: string, sep: char)
    ensures JoinWith(SplitOn(text, sep), sep) == text
  {
    if text != [] {
      JoinSplit(text[1..], sep);
      var rest := SplitOn(text[1..], sep);
      if text[0] == sep {
        assert ([[]] + rest)[1..] == rest;
      } else {
        var parts := [[text[0]] + rest[0]] + rest[1..];
        assert parts[1..] == rest[1..];
      }
    }
  }

  /** The parts after one more character in front. */
  function Prepended(c: char, parts: seq<string>, sep: char): seq<string>
    requires parts != []
  {
    if c == sep then [[]] + parts else [[c] + parts[0]] + parts[1..]
  }

  lemma PrependedConcat(c: char, a: seq<string>, b: seq<string>, sep: char)
    requires a != []
    ensures Prepended(c, a + b, sep) == Prepended(c, a, sep) + b
  {
    if c == sep {
      Associative([[]], a, b);
    } else {
      assert (a + b)[0] == a[0] && (a + b)[1..] == a[1..] + b;
      Associative([[c] + a[0]], a[1..], b);
    }
  }

  /** Splitting a joined text splits its parts. */
  lemma {:induction false} SplitConcat(a: string, b: string, sep: char)
    ensures SplitOn(a + [sep] + b, sep) == SplitOn(a, sep) + SplitOn(b, sep)
  {
    var text := a + [sep] + b;
    if a == [] {
      assert text[1..] == b;
    } else {
      SplitConcat(a[1..], b, sep);
      assert text[0] == a[0] && text[1..] == a[1..] + [sep] + b;
      PrependedConcat(a[0], SplitOn(a[1..], sep), SplitOn(b, sep), sep);
      assert SplitOn(text, sep) == Prepended(a[0], SplitOn(text[1..], sep), sep);
      assert SplitOn(a, sep) == Prepended(a[0], SplitOn(a[1..], sep), sep);
    }
  }

  /******* Effective constraint lines *******/

  /** The characters at which `str.splitlines` breaks a line. */
  predicate IsLineBoundary(c: char) {
    '\n' <= c <= '\r' || '\U{1C}' <= c <= '\U{1E}' || c == '\U{85}' || c == '\U{2028}' || c == '\U{2029}'
  }

  /** Stripped lines, without the blank ones and the comments. */
  function Effective(lines: seq<string>): seq<string> {
    if lines == [] then []
    else
      var line := Strip(lines[0]);
      (if line == [] || line[0] == '#' then [] else [line]) + Effective(lines[1..])
  }

  function EffectiveLines(text: string): seq<string> { Effective(LinesBy(text, IsLineBoundary)) }

  method ConstraintLines(text: string) returns (r: seq<string>)
    ensures r == EffectiveLines(text)
  {
    r := [];
    var items := LinesBy(text, IsLineBoundary);
    for i := 0 to |items|
      invariant r + Effective(items[i..]) == Effective(items)
    {
      assert items[i..][1..] == items[i + 1..];
      var item := Strip(items[i]);
      ghost var rest := Effective(items[i + 1..]);
      if item == [] || item[0] == '#' {
        assert Effective(items[i..]) == rest;
        continue;
      }
      Associative(r, [item], rest);
      r := r + [item];
    }
    assert items[|items|..] == [];
  }

  predicate EffectiveLine(line: string) { line != [] && line[0] != '#' && Stripped(line) }

  /** Reducing lines that are already reduced changes nothing. */
  lemma {:induction false} EffectiveIsIdempotent(lines: seq<string>)
    ensures forall i | 0 <= i < |Effective(lines)| :: EffectiveLine(Effective(lines)[i])
    ensures (forall i | 0 <= i < |lines| :: EffectiveLine(lines[i])) ==> Effective(lines) == lines
    ensures Effective(Effective(lines)) == Effective(lines)
  {
    if lines != [] {
      StripFacts(lines[0]);
      EffectiveIsIdempotent(lines[1..]);
      var e := Effective(lines);
      if e != Effective(lines[1..]) {
        assert e[0] == Strip(lines[0]) && e[1..] == Effective(lines[1..]);
        StripFacts(e[0]);
      }
    }
  }

  /** No space anywhere and no leading `#`. */
  predicate CleanLine(line: string) { line != [] && line[0] != '#' && forall i | 0 <= i < |line| :: !IsSpace(line[i]) }

  /** The text of clean lines reduces to just those lines. */
  lemma CleanLinesAreEffective(lines: seq<string>)
    requires forall i | 0 <= i < |lines| :: CleanLine(lines[i])
    ensures EffectiveLines(Terminated(lines)) == lines
  {
    LinesOfTerminated(lines, IsLineBoundary);
    EffectiveIsIdempotent(lines);
  }
}

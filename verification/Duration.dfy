/** The minimum age: one ISO 8601 pattern, read by three programs with two regular-expression engines. */
module IsoDuration {
  import opened Base
  import opened Text

  /******* The pattern *******/

  /** What an engine takes for a decimal digit, and for a letter of the pattern when case is ignored. */
  datatype Engine = Engine(digit: char -> Option<nat>, letter: (char, char) -> bool)

  /** `\d+(?:\.\d+)?` */
  datatype Number = Number(whole: string, fraction: string)

  datatype Parts = Parts(
    weeks: Option<Number>,
    days: Option<Number>,
    hours: Option<Number>,
    minutes: Option<Number>,
    seconds: Option<Number>)

  function LeadingDigits(t: string, e: Engine): (r: string)
    ensures r <= t
  {
    if t == [] || e.digit(t[0]).None? then [] else [t[0]] + LeadingDigits(t[1..], e)
  }

  /** The longest number at the front of a text, and what follows it. */
  function ReadNumber(t: string, e: Engine): Option<(Number, string)> {
    var whole := LeadingDigits(t, e);
    var rest := t[|whole|..];
    if whole == [] then None
    else if rest == [] || rest[0] != '.' || LeadingDigits(rest[1..], e) == [] then Some((Number(whole, []), rest))
    else
      var fraction := LeadingDigits(rest[1..], e);
      Some((Number(whole, fraction), rest[1..][|fraction|..]))
  }

  /** A number with its letter, or nothing. */
  function ReadPart(t: string, letter: char, e: Engine): (Option<Number>, string) {
    match ReadNumber(t, e)
    case Some((n, rest)) => if rest != [] && e.letter(letter, rest[0]) then (Some(n), rest[1..]) else (None, t)
    case None => (None, t)
  }

  function ReadDate(t: string, e: Engine): (Option<Number>, Option<Number>, string) {
    var (weeks, afterWeeks) := ReadPart(t, 'W', e);
    var (days, rest) := ReadPart(afterWeeks, 'D', e);
    (weeks, days, rest)
  }

  function ReadClock(t: string, e: Engine): (Option<Number>, Option<Number>, Option<Number>, string) {
    var (hours, afterHours) := ReadPart(t, 'H', e);
    var (minutes, afterMinutes) := ReadPart(afterHours, 'M', e);
    var (seconds, rest) := ReadPart(afterMinutes, 'S', e);
    (hours, minutes, seconds, rest)
  }

  /** The anchored pattern; None when it does not match. */
  function ReadIso(t: string, e: Engine): Option<Parts> {
    if t == [] || !e.letter('P', t[0]) then None
    else
      var (weeks, days, rest) := ReadDate(t[1..], e);
      if rest == [] then Some(Parts(weeks, days, None, None, None))
      else if !e.letter('T', rest[0]) then None
      else
        var (hours, minutes, seconds, end) := ReadClock(rest[1..], e);
        if end == [] then Some(Parts(weeks, days, hours, minutes, seconds)) else None
  }

  predicate NothingNamed(p: Parts) {
    p.weeks.None? && p.days.None? && p.hours.None? && p.minutes.None? && p.seconds.None?
  }

  /******* What the pattern means, whatever way it is matched *******/

  predicate IsLetter(l: char) { l == 'P' || l == 'W' || l == 'D' || l == 'T' || l == 'H' || l == 'M' || l == 'S' }

  /** Digits, letters and the point are apart, and no character stands for two letters. */
  ghost predicate Apart(e: Engine) {
    && e.digit('.').None?
    && (forall c, l | IsLetter(l) && e.letter(l, c) :: e.digit(c).None? && c != '.')
    && (forall c, l, m | IsLetter(l) && IsLetter(m) && e.letter(l, c) && e.letter(m, c) :: l == m)
  }

  predicate AllDigits(s: string, e: Engine) { forall i | 0 <= i < |s| :: e.digit(s[i]).Some? }

  predicate IsNumber(n: Number, e: Engine) { n.whole != [] && AllDigits(n.whole, e) && AllDigits(n.fraction, e) }

  function NumberText(n: Number): string { n.whole + if n.fraction == [] then [] else "." + n.fraction }

  /** A text of one part: empty, or a number and its letter. */
  predicate IsPart(u: string, n: Option<Number>, letter: char, e: Engine) {
    match n
    case None => u == []
    case Some(number) =>
      && u != [] && e.letter(letter, u[|u| - 1])
      && IsNumber(number, e) && u[..|u| - 1] == NumberText(number)
  }

  ghost predicate IsDate(u: string, p: Parts, e: Engine) {
    exists weeks: string, days: string ::
      u == weeks + days && IsPart(weeks, p.weeks, 'W', e) && IsPart(days, p.days, 'D', e)
  }

  ghost predicate IsClock(u: string, p: Parts, e: Engine) {
    exists hours: string, minutes: string, seconds: string ::
      && u == hours + (minutes + seconds) && IsPart(hours, p.hours, 'H', e)
      && IsPart(minutes, p.minutes, 'M', e) && IsPart(seconds, p.seconds, 'S', e)
  }

  ghost predicate IsTime(u: string, p: Parts, e: Engine) {
    if u == [] then p.hours.None? && p.minutes.None? && p.seconds.None?
    else e.letter('T', u[0]) && IsClock(u[1..], p, e)
  }

  /** The text is a P, weeks and days, and then nothing or a T, hours, minutes and seconds. */
  ghost predicate Matches(t: string, p: Parts, e: Engine) {
    && t != [] && e.letter('P', t[0])
    && exists date: string, time: string :: t[1..] == date + time && IsDate(date, p, e) && IsTime(time, p, e)
  }

  /* Every match is found. */

  lemma {:induction false} FindsDigits(s: string, rest: string, e: Engine)
    requires AllDigits(s, e) && (rest != [] ==> e.digit(rest[0]).None?)
    ensures LeadingDigits(s + rest, e) == s
  {
    if s == [] {
      assert s + rest == rest;
    } else {
      assert (s + rest)[1..] == s[1..] + rest;
      FindsDigits(s[1..], rest, e);
    }
  }

  lemma FindsNumber(n: Number, rest: string, e: Engine)
    requires Apart(e) && IsNumber(n, e) && (rest != [] ==> e.digit(rest[0]).None? && rest[0] != '.')
    ensures ReadNumber(NumberText(n) + rest, e) == Some((n, rest))
  {
    if n.fraction == [] {
      assert NumberText(n) + rest == n.whole + rest;
      FindsDigits(n.whole, rest, e);
      assert (n.whole + rest)[|n.whole|..] == rest;
    } else {
      var after := "." + n.fraction + rest;
      assert NumberText(n) + rest == n.whole + after;
      FindsDigits(n.whole, after, e);
      assert (n.whole + after)[|n.whole|..] == after && after[1..] == n.fraction + rest;
      FindsDigits(n.fraction, rest, e);
      assert (n.fraction + rest)[|n.fraction|..] == rest;
    }
  }

  /** A part is found by its own letter and by no other one. */
  lemma FindsPart(u: string, n: Number, own: char, letter: char, rest: string, e: Engine)
    requires Apart(e) && IsLetter(own) && IsLetter(letter) && IsPart(u, Some(n), own, e)
    ensures ReadPart(u + rest, letter, e) == if letter == own then (Some(n), rest) else (None, u + rest)
  {
    var after := [u[|u| - 1]] + rest;
    assert u + rest == NumberText(n) + after;
    FindsNumber(n, after, e);
    assert after[1..] == rest;
  }

  lemma FindsNoPart(t: string, letter: char, e: Engine)
    requires t != [] ==> e.digit(t[0]).None?
    ensures ReadPart(t, letter, e) == (None, t)
  {
  }

  /** A part that may be missing, before a text that does not go on with it. */
  lemma FindsOptional(u: string, n: Option<Number>, letter: char, rest: string, e: Engine)
    requires Apart(e) && IsLetter(letter) && IsPart(u, n, letter, e)
    requires ReadPart(rest, letter, e) == (None, rest)
    ensures ReadPart(u + rest, letter, e) == (n, rest)
  {
    match n
    case None => assert u + rest == rest;
    case Some(number) => FindsPart(u, number, letter, letter, rest, e);
  }

  /** Another part, or none, and then a text that does not go on with this one. */
  lemma PassesOver(u: string, n: Option<Number>, own: char, letter: char, rest: string, e: Engine)
    requires Apart(e) && IsLetter(own) && IsLetter(letter) && own != letter && IsPart(u, n, own, e)
    requires ReadPart(rest, letter, e) == (None, rest)
    ensures ReadPart(u + rest, letter, e) == (None, u + rest)
  {
    match n
    case None => assert u + rest == rest;
    case Some(number) => FindsPart(u, number, own, letter, rest, e);
  }

  /** A clock starts with no digit. */
  lemma FindsNothingInClock(clock: string, letter: char, e: Engine)
    requires Apart(e) && (clock != [] ==> e.letter('T', clock[0]))
    ensures ReadPart(clock, letter, e) == (None, clock)
  {
    if clock != [] {
      assert IsLetter('T') && e.digit(clock[0]).None?;
    }
    FindsNoPart(clock, letter, e);
  }

  lemma FindsDate(date: string, p: Parts, clock: string, e: Engine)
    requires Apart(e) && IsDate(date, p, e) && (clock != [] ==> e.letter('T', clock[0]))
    ensures ReadDate(date + clock, e) == (p.weeks, p.days, clock)
  {
    var weeks: string, days: string :|
      date == weeks + days && IsPart(weeks, p.weeks, 'W', e) && IsPart(days, p.days, 'D', e);
    FindsNothingInClock(clock, 'W', e);
    FindsNothingInClock(clock, 'D', e);
    PassesOver(days, p.days, 'D', 'W', clock, e);
    FindsOptional(days, p.days, 'D', clock, e);
    FindsOptional(weeks, p.weeks, 'W', days + clock, e);
    Associative(weeks, days, clock);
  }

  lemma FindsClock(u: string, p: Parts, e: Engine)
    requires Apart(e) && IsClock(u, p, e)
    ensures ReadClock(u, e) == (p.hours, p.minutes, p.seconds, [])
  {
    var hours: string, minutes: string, seconds: string :|
      && u == hours + (minutes + seconds) && IsPart(hours, p.hours, 'H', e)
      && IsPart(minutes, p.minutes, 'M', e) && IsPart(seconds, p.seconds, 'S', e);
    var none: string := [];
    assert seconds + none == seconds;
    PassesOver(seconds, p.seconds, 'S', 'H', none, e);
    PassesOver(seconds, p.seconds, 'S', 'M', none, e);
    FindsOptional(seconds, p.seconds, 'S', none, e);
    PassesOver(minutes, p.minutes, 'M', 'H', seconds, e);
    FindsOptional(minutes, p.minutes, 'M', seconds, e);
    FindsOptional(hours, p.hours, 'H', minutes + seconds, e);
  }

  lemma FindsEveryMatch(t: string, p: Parts, e: Engine)
    requires Apart(e) && Matches(t, p, e)
    ensures ReadIso(t, e) == Some(p)
  {
    var date: string, time: string :| t[1..] == date + time && IsDate(date, p, e) && IsTime(time, p, e);
    FindsDate(date, p, time, e);
    if time != [] { FindsClock(time[1..], p, e); }
  }

  /* And only matches are found. */

  lemma OneMoreDigit(c: char, s: string, e: Engine)
    requires e.digit(c).Some? && AllDigits(s, e)
    ensures AllDigits([c] + s, e)
  {
    forall i | 0 <= i < |s| + 1 ensures e.digit(([c] + s)[i]).Some? {
      if i > 0 { assert ([c] + s)[i] == s[i - 1]; }
    }
  }

  lemma {:induction false} DigitsFound(t: string, e: Engine)
    ensures AllDigits(LeadingDigits(t, e), e)
  {
    if t != [] && e.digit(t[0]).Some? {
      DigitsFound(t[1..], e);
      OneMoreDigit(t[0], LeadingDigits(t[1..], e), e);
    }
  }

  lemma SplitAfter(front: string, t: string)
    requires front <= t
    ensures t == front + t[|front|..]
  {
  }

  lemma NumberFound(t: string, e: Engine)
    requires ReadNumber(t, e).Some?
    ensures var (n, rest) := ReadNumber(t, e).value; IsNumber(n, e) && t == NumberText(n) + rest
  {
    var whole := LeadingDigits(t, e);
    var rest := t[|whole|..];
    DigitsFound(t, e);
    SplitAfter(whole, t);
    if rest != [] && rest[0] == '.' && LeadingDigits(rest[1..], e) != [] {
      var fraction := LeadingDigits(rest[1..], e);
      DigitsFound(rest[1..], e);
      SplitAfter(fraction, rest[1..]);
      assert rest == "." + rest[1..];
      PointedSplit(whole, fraction, rest[1..][|fraction|..]);
    }
  }

  lemma PointedSplit(whole: string, fraction: string, rest: string)
    ensures whole + ("." + (fraction + rest)) == (whole + ("." + fraction)) + rest
  {
  }

  /** What was read for a part is its text. */
  lemma PartFound(t: string, letter: char, e: Engine) returns (u: string)
    ensures var (n, rest) := ReadPart(t, letter, e); t == u + rest && IsPart(u, n, letter, e)
  {
    var (n, rest) := ReadPart(t, letter, e);
    if n.None? { return []; }
    NumberFound(t, e);
    var (number, after) := ReadNumber(t, e).value;
    u := NumberText(number) + [after[0]];
    assert after == [after[0]] + rest;
    Associative(NumberText(number), [after[0]], rest);
    assert u[..|u| - 1] == NumberText(number);
  }

  lemma DateFound(t: string, e: Engine, p: Parts) returns (date: string)
    requires (p.weeks, p.days) == (ReadDate(t, e).0, ReadDate(t, e).1)
    ensures t == date + ReadDate(t, e).2 && IsDate(date, p, e)
  {
    var weeks := PartFound(t, 'W', e);
    var days := PartFound(ReadPart(t, 'W', e).1, 'D', e);
    date := weeks + days;
  }

  lemma ClockFound(t: string, e: Engine, p: Parts)
    requires ReadClock(t, e) == (p.hours, p.minutes, p.seconds, [])
    ensures IsClock(t, p, e)
  {
    var hours := PartFound(t, 'H', e);
    var afterHours := ReadPart(t, 'H', e).1;
    var minutes := PartFound(afterHours, 'M', e);
    var seconds := PartFound(ReadPart(afterHours, 'M', e).1, 'S', e);
    assert t == hours + (minutes + seconds);
  }

  lemma FindsOnlyMatches(t: string, e: Engine)
    requires ReadIso(t, e).Some?
    ensures Matches(t, ReadIso(t, e).value, e)
  {
    var p := ReadIso(t, e).value;
    var date := DateFound(t[1..], e, p);
    var time := ReadDate(t[1..], e).2;
    if time != [] { ClockFound(time[1..], e, p); }
    assert t[1..] == date + time && IsDate(date, p, e) && IsTime(time, p, e);
  }

  /** Reading from the left finds the parts of a text exactly when the pattern matches it with these parts. */
  lemma ReadIsoExactly(t: string, p: Parts, e: Engine)
    requires Apart(e)
    ensures ReadIso(t, e) == Some(p) <==> Matches(t, p, e)
  {
    if ReadIso(t, e) == Some(p) { FindsOnlyMatches(t, e); }
    if Matches(t, p, e) { FindsEveryMatch(t, p, e); }
  }
}

/** upstream.min_age in policy-sync, in the Verdaccio filter and in devpi. */
module MinAge {
  import opened Base
  import opened Text
  import opened IsoDuration

  /******* The two engines *******/

  function AsciiDigit(c: char): Option<nat> { if '0' <= c <= '9' then Some(c as int - '0' as int) else None }

  predicate SameLetter(l: char, c: char) { c == l || (IsLetter(l) && c as int == l as int + 32) }

  /** JavaScript without the `u` flag: ASCII digits, and letters that fold to ASCII only from ASCII. */
  function Js(): Engine { Engine(AsciiDigit, SameLetter) }

  /** What Python's `\d` takes for a digit, and its value. */
  type Decimals = char -> Option<nat>

  /** Python on `str`: any decimal digit of Unicode, and the long s matches an S when case is ignored. */
  function Python(u: Decimals): Engine {
    Engine(u, (l, c) => SameLetter(l, c) || (l == 'S' && c == '\U{17F}'))
  }

  /** The white space and line ends that `trim` removes in JavaScript. */
  predicate JsSpace(c: char) {
    '\t' <= c <= '\r' || c == ' ' || c == '\U{A0}' || c == '\U{1680}' || '\U{2000}' <= c <= '\U{200A}'
    || c == '\U{2028}' || c == '\U{2029}' || c == '\U{202F}' || c == '\U{205F}' || c == '\U{3000}' || c == '\U{FEFF}'
  }

  /** Of Unicode's decimal digits only this is used: in ASCII they are the usual ten, and the long s and white space
      are none. */
  ghost predicate Unicode(u: Decimals) {
    && (forall c | c < '\U{80}' :: u(c) == AsciiDigit(c)) && u('\U{17F}').None?
    && forall c | IsSpace(c) || JsSpace(c) :: u(c).None?
  }

  lemma EnginesAreApart(u: Decimals)
    requires Unicode(u)
    ensures Apart(Js()) && Apart(Python(u))
  {
    forall c, l | IsLetter(l) && Python(u).letter(l, c) ensures u(c).None? && c != '.' {}
  }

  /** A letter of the pattern is matched by itself and by its small letter, in Python the S by the long s too. */
  lemma LettersIgnoreCase(l: char, c: char, u: Decimals)
    requires l in {'P', 'W', 'D', 'T', 'H', 'M', 'S'}
    ensures Js().letter(l, c) <==> c == l || c as int == l as int + ('a' as int - 'A' as int)
    ensures Python(u).letter(l, c) <==> Js().letter(l, c) || (l == 'S' && c == '\U{17F}')
  {
  }

  predicate Ascii(t: string) { forall i | 0 <= i < |t| :: t[i] < '\U{80}' }

  /******* On ASCII text the engines read the same *******/

  lemma {:induction false} SameDigits(t: string, u: Decimals)
    requires Unicode(u) && Ascii(t)
    ensures LeadingDigits(t, Js()) == LeadingDigits(t, Python(u))
  {
    if t != [] {
      assert t[0] < '\U{80}';
      SameDigits(t[1..], u);
    }
  }

  lemma SamePart(t: string, letter: char, u: Decimals)
    requires Unicode(u) && Ascii(t)
    ensures ReadPart(t, letter, Js()) == ReadPart(t, letter, Python(u)) && Ascii(ReadPart(t, letter, Js()).1)
  {
    SameDigits(t, u);
    var rest := t[|LeadingDigits(t, Js())|..];
    if rest != [] { SameDigits(rest[1..], u); }
  }

  lemma SameDate(t: string, u: Decimals)
    requires Unicode(u) && Ascii(t)
    ensures ReadDate(t, Js()) == ReadDate(t, Python(u)) && Ascii(ReadDate(t, Js()).2)
  {
    SamePart(t, 'W', u);
    SamePart(ReadPart(t, 'W', Js()).1, 'D', u);
  }

  lemma SameClock(t: string, u: Decimals)
    requires Unicode(u) && Ascii(t)
    ensures ReadClock(t, Js()) == ReadClock(t, Python(u))
  {
    var afterHours := ReadPart(t, 'H', Js()).1;
    SamePart(t, 'H', u);
    SamePart(afterHours, 'M', u);
    SamePart(ReadPart(afterHours, 'M', Js()).1, 'S', u);
  }

  lemma SameReading(t: string, u: Decimals)
    requires Unicode(u) && Ascii(t)
    ensures ReadIso(t, Js()) == ReadIso(t, Python(u))
  {
    if t != [] {
      SameDate(t[1..], u);
      var rest := ReadDate(t[1..], Js()).2;
      if rest != [] { SameClock(rest[1..], u); }
    }
  }

  /******* What a matched text is made of *******/

  predicate All(t: string, ok: char -> bool) { forall i | 0 <= i < |t| :: ok(t[i]) }

  lemma AllConcat(s: string, t: string, ok: char -> bool)
    requires All(s, ok) && All(t, ok)
    ensures All(s + t, ok)
  {
  }

  /** Digits, the point and the letters of the pattern are all this. */
  ghost predicate Allows(e: Engine, ok: char -> bool) {
    ok('.') && forall c :: (e.digit(c).Some? ==> ok(c)) && forall l | IsLetter(l) && e.letter(l, c) :: ok(c)
  }

  lemma PartIsAll(u: string, n: Option<Number>, letter: char, e: Engine, ok: char -> bool)
    requires IsPart(u, n, letter, e) && IsLetter(letter) && Allows(e, ok)
    ensures All(u, ok)
  {
    if n.Some? {
      assert u == NumberText(n.value) + [u[|u| - 1]];
      AllConcat(n.value.whole, "." + n.value.fraction, ok);
    }
  }

  lemma MatchIsAll(t: string, e: Engine, ok: char -> bool)
    requires ReadIso(t, e).Some? && Allows(e, ok)
    ensures All(t, ok)
  {
    var p := ReadIso(t, e).value;
    FindsOnlyMatches(t, e);
    var date: string, time: string :| t[1..] == date + time && IsDate(date, p, e) && IsTime(time, p, e);
    DateIsAll(date, p, e, ok);
    TimeIsAll(time, p, e, ok);
    AllConcat(date, time, ok);
    assert IsLetter('P') && ok(t[0]);
    AllTail(t, ok);
  }

  lemma AllTail(t: string, ok: char -> bool)
    requires t != [] && ok(t[0]) && All(t[1..], ok)
    ensures All(t, ok)
  {
    forall i | 0 <= i < |t| ensures ok(t[i]) {
      if i > 0 { assert t[i] == t[1..][i - 1]; }
    }
  }

  lemma TimeIsAll(time: string, p: Parts, e: Engine, ok: char -> bool)
    requires IsTime(time, p, e) && Allows(e, ok)
    ensures All(time, ok)
  {
    if time != [] {
      ClockIsAll(time[1..], p, e, ok);
      assert IsLetter('T') && ok(time[0]);
      AllTail(time, ok);
    }
  }

  lemma DateIsAll(date: string, p: Parts, e: Engine, ok: char -> bool)
    requires IsDate(date, p, e) && Allows(e, ok)
    ensures All(date, ok)
  {
    var weeks: string, days: string :|
      date == weeks + days && IsPart(weeks, p.weeks, 'W', e) && IsPart(days, p.days, 'D', e);
    PartIsAll(weeks, p.weeks, 'W', e, ok);
    PartIsAll(days, p.days, 'D', e, ok);
  }

  lemma ClockIsAll(u: string, p: Parts, e: Engine, ok: char -> bool)
    requires IsClock(u, p, e) && Allows(e, ok)
    ensures All(u, ok)
  {
    var hours: string, minutes: string, seconds: string :|
      && u == hours + (minutes + seconds) && IsPart(hours, p.hours, 'H', e)
      && IsPart(minutes, p.minutes, 'M', e) && IsPart(seconds, p.seconds, 'S', e);
    PartIsAll(hours, p.hours, 'H', e, ok);
    PartIsAll(minutes, p.minutes, 'M', e, ok);
    PartIsAll(seconds, p.seconds, 'S', e, ok);
    AllConcat(minutes, seconds, ok);
    AllConcat(hours, minutes + seconds, ok);
  }

  /** What the JavaScript pattern matches is what the Python pattern matches in ASCII. */
  lemma EnginesDiffer(t: string, u: Decimals)
    requires Unicode(u)
    ensures ReadIso(t, Js()).Some? <==> ReadIso(t, Python(u)).Some? && Ascii(t)
    ensures ReadIso(t, Js()).Some? ==> ReadIso(t, Js()) == ReadIso(t, Python(u))
  {
    if ReadIso(t, Js()).Some? {
      var ascii := (c: char) => c < '\U{80}';
      assert Allows(Js(), ascii);
      MatchIsAll(t, Js(), ascii);
      assert forall i | 0 <= i < |t| :: ascii(t[i]);
    }
    if Ascii(t) { SameReading(t, u); }
  }

  /******* What the parts amount to *******/

  function DigitValue(c: char, e: Engine): nat { match e.digit(c) case Some(d) => d case None => 0 }

  function DigitsValue(s: string, e: Engine): nat {
    if s == [] then 0 else 10 * DigitsValue(s[..|s| - 1], e) + DigitValue(s[|s| - 1], e)
  }

  /** What stands behind the point. */
  function FractionValue(s: string, e: Engine): (r: real)
    ensures r >= 0.0
  {
    if s == [] then 0.0 else (DigitValue(s[0], e) as real + FractionValue(s[1..], e)) / 10.0
  }

  /** The number itself, before any rounding. */
  function Amount(n: Number, e: Engine): (r: real)
    ensures r >= 0.0
  {
    DigitsValue(n.whole, e) as real + FractionValue(n.fraction, e)
  }

  function AmountOf(n: Option<Number>, e: Engine): Option<real> {
    match n case None => None case Some(number) => Some(Amount(number, e))
  }

  function Amounts(p: Parts, e: Engine): seq<Option<real>> {
    [AmountOf(p.weeks, e), AmountOf(p.days, e), AmountOf(p.hours, e), AmountOf(p.minutes, e), AmountOf(p.seconds, e)]
  }

  predicate Natural(xs: seq<Option<real>>) { forall i | 0 <= i < |xs| && xs[i].Some? :: xs[i].value >= 0.0 }

  const SECONDS_FACTORS: seq<real> := [604800.0, 86400.0, 3600.0, 60.0, 1.0]

  /** The sum of the numbers that are there, times their factors, without rounding. */
  function Total(xs: seq<Option<real>>, factors: seq<real>): real
    requires |xs| == |factors|
  {
    if xs == [] then 0.0
    else
      var before, last := Total(xs[..|xs| - 1], factors[..|xs| - 1]), xs[|xs| - 1];
      if last.None? then before else before + last.value * factors[|xs| - 1]
  }

  function Seconds(p: Parts, e: Engine): real { Total(Amounts(p, e), SECONDS_FACTORS) }

  function ValueOf(n: Option<Number>, e: Engine): real {
    match n case None => 0.0 case Some(number) => Amount(number, e)
  }

  lemma OnePartMore(xs: seq<Option<real>>, factors: seq<real>, x: Option<real>, k: real)
    requires |xs| == |factors|
    ensures Total(xs + [x], factors + [k]) == Total(xs, factors) + if x.None? then 0.0 else x.value * k
  {
    assert (xs + [x])[..|xs|] == xs && (factors + [k])[..|xs|] == factors;
  }

  /** Weeks of 604800 seconds, days of 86400, hours of 3600, minutes of 60, and seconds. */
  lemma SecondsMeaning(p: Parts, e: Engine)
    ensures Seconds(p, e) == ValueOf(p.weeks, e) * 604800.0 + ValueOf(p.days, e) * 86400.0
                             + ValueOf(p.hours, e) * 3600.0 + ValueOf(p.minutes, e) * 60.0 + ValueOf(p.seconds, e)
  {
    var all: seq<Option<real>>, fs: seq<real> := Amounts(p, e), SECONDS_FACTORS;
    var w, wd, wdh := all[..1], all[..2], all[..3];
    FirstParts(p, e, wd);
    OnePartMore(wd, fs[..2], AmountOf(p.hours, e), 3600.0);
    assert wd + [AmountOf(p.hours, e)] == wdh && fs[..2] + [3600.0] == fs[..3];
    OnePartMore(wdh, fs[..3], AmountOf(p.minutes, e), 60.0);
    assert wdh + [AmountOf(p.minutes, e)] == all[..4] && fs[..3] + [60.0] == fs[..4];
    OnePartMore(all[..4], fs[..4], AmountOf(p.seconds, e), 1.0);
    assert all[..4] + [AmountOf(p.seconds, e)] == all && fs[..4] + [1.0] == fs;
  }

  lemma FirstParts(p: Parts, e: Engine, wd: seq<Option<real>>)
    requires wd == Amounts(p, e)[..2]
    ensures Total(wd, SECONDS_FACTORS[..2]) == ValueOf(p.weeks, e) * 604800.0 + ValueOf(p.days, e) * 86400.0
  {
    var fs: seq<real> := SECONDS_FACTORS;
    var w := Amounts(p, e)[..1];
    OnePartMore([], [], AmountOf(p.weeks, e), 604800.0);
    assert [] + [AmountOf(p.weeks, e)] == w && [] + [604800.0] == fs[..1];
    OnePartMore(w, fs[..1], AmountOf(p.days, e), 86400.0);
    assert w + [AmountOf(p.days, e)] == wd && fs[..1] + [86400.0] == fs[..2];
  }

  /** The numerals are decimal: one more digit in front of the point, and one less behind it. */
  lemma DecimalNumbers(whole: string, fraction: string, c: char, e: Engine)
    requires e.digit(c).Some?
    ensures Amount(Number(whole + [c], []), e) == 10.0 * Amount(Number(whole, []), e) + e.digit(c).value as real
    ensures Amount(Number([], [c] + fraction), e) == (e.digit(c).value as real + Amount(Number([], fraction), e)) / 10.0
  {
    assert (whole + [c])[..|whole|] == whole && ([c] + fraction)[1..] == fraction;
  }

  /******* JavaScript numbers *******/

  datatype Double = Finite(value: real) | Infinite

  /** How doubles are computed: rounded as if the exponent had no bound, and infinite from the limit on. */
  datatype Arithmetic = Arithmetic(round: real -> real, limit: real)

  /** Rounding keeps the order, and keeps zero and the limit. */
  ghost predicate Rounds(a: Arithmetic) {
    a.limit > 0.0 && a.round(0.0) == 0.0 && a.round(a.limit) == a.limit
    && forall x, y | x <= y :: a.round(x) <= a.round(y)
  }

  function ToDouble(x: real, a: Arithmetic): Double {
    if a.round(x) >= a.limit then Infinite else Finite(a.round(x))
  }

  function Times(x: Double, k: real, a: Arithmetic): Double {
    match x case Infinite => Infinite case Finite(v) => ToDouble(v * k, a)
  }

  function Plus(x: Double, y: Double, a: Arithmetic): Double {
    match (x, y)
    case (Finite(v), Finite(w)) => ToDouble(v + w, a)
    case _ => Infinite
  }

  /** One step of the sum: an absent part adds nothing. */
  function AddPart(sum: Double, x: Option<real>, factor: real, a: Arithmetic): Double {
    if x.None? then sum else Plus(sum, Times(ToDouble(x.value, a), factor, a), a)
  }

  const MILLISECONDS_FACTORS: seq<real> := [604800000.0, 86400000.0, 3600000.0, 60000.0, 1000.0]

  function Sum(xs: seq<Option<real>>, factors: seq<real>, a: Arithmetic): Double
    requires |xs| == |factors|
  {
    if xs == [] then Finite(0.0)
    else AddPart(Sum(xs[..|xs| - 1], factors[..|xs| - 1], a), xs[|xs| - 1], factors[|xs| - 1], a)
  }

  function Milliseconds(p: Parts, a: Arithmetic): Double { Sum(Amounts(p, Js()), MILLISECONDS_FACTORS, a) }

  /******* Trimming *******/

  function TrimLeft(s: string, space: char -> bool): string {
    if s != [] && space(s[0]) then TrimLeft(s[1..], space) else s
  }

  function TrimRight(s: string, space: char -> bool): string {
    if s != [] && space(s[|s| - 1]) then TrimRight(s[..|s| - 1], space) else s
  }

  function Trim(s: string, space: char -> bool): string { TrimRight(TrimLeft(s, space), space) }

  /******* The three readers *******/

  /** policy-sync: the stripped text when it is a duration, the default where there is none. */
  function ValidateMinAge(raw: Option<string>, u: Decimals): Option<string> {
    match raw
    case None => Some("P0D")
    case Some(text) =>
      var p := ReadIso(Strip(text), Python(u));
      if p.None? || NothingNamed(p.value) then None else Some(Strip(text))
  }

  /** The filter: milliseconds, when they are finite. */
  function FilterMilliseconds(raw: string, a: Arithmetic): Option<real> {
    var p := ReadIso(Trim(raw, JsSpace), Js());
    if p.None? || NothingNamed(p.value) then None
    else match Milliseconds(p.value, a)
      case Infinite => None
      case Finite(ms) => if ms < 0.0 then None else Some(ms)
  }

  /** devpi: seconds; an empty setting is none at all. */
  function DevpiSeconds(raw: string, u: Decimals): Option<real> {
    if raw == [] then Some(0.0)
    else
      var p := ReadIso(Strip(raw), Python(u));
      if p.None? || NothingNamed(p.value) || Seconds(p.value, Python(u)) < 0.0 then None
      else Some(Seconds(p.value, Python(u)))
  }

  /******* No duration is negative *******/

  lemma ScaledIsNatural(x: real, k: real)
    requires x >= 0.0 && k >= 0.0
    ensures x * k >= 0.0
  {
  }

  lemma ToDoubleIsNatural(x: real, a: Arithmetic)
    requires Rounds(a) && x >= 0.0
    ensures ToDouble(x, a).Finite? ==> ToDouble(x, a).value >= 0.0
  {
    assert a.round(0.0) <= a.round(x);
  }

  lemma AddKeepsNatural(sum: Double, x: real, factor: real, a: Arithmetic)
    requires Rounds(a) && x >= 0.0 && factor >= 0.0 && (sum.Finite? ==> sum.value >= 0.0)
    ensures var r := AddPart(sum, Some(x), factor, a); r.Finite? ==> r.value >= 0.0
  {
    ToDoubleIsNatural(x, a);
    var y := ToDouble(x, a);
    if y.Finite? {
      ScaledIsNatural(y.value, factor);
      ToDoubleIsNatural(y.value * factor, a);
      var z := ToDouble(y.value * factor, a);
      if z.Finite? && sum.Finite? { ToDoubleIsNatural(sum.value + z.value, a); }
    }
  }

  lemma {:induction false} SumIsNatural(xs: seq<Option<real>>, factors: seq<real>, a: Arithmetic)
    requires Rounds(a) && Natural(xs) && |xs| == |factors| && forall i | 0 <= i < |factors| :: factors[i] >= 0.0
    ensures Sum(xs, factors, a).Finite? ==> Sum(xs, factors, a).value >= 0.0
  {
    if xs != [] {
      var n := |xs| - 1;
      SumIsNatural(xs[..n], factors[..n], a);
      if xs[n].Some? { AddKeepsNatural(Sum(xs[..n], factors[..n], a), xs[n].value, factors[n], a); }
    }
  }

  lemma {:induction false} TotalIsNatural(xs: seq<Option<real>>, factors: seq<real>)
    requires Natural(xs) && |xs| == |factors| && forall i | 0 <= i < |factors| :: factors[i] >= 0.0
    ensures Total(xs, factors) >= 0.0
  {
    if xs != [] {
      var n := |xs| - 1;
      TotalIsNatural(xs[..n], factors[..n]);
      if xs[n].Some? { ScaledIsNatural(xs[n].value, factors[n]); }
    }
  }

  lemma SecondsAreNatural(p: Parts, e: Engine)
    ensures Seconds(p, e) >= 0.0
  {
    TotalIsNatural(Amounts(p, e), SECONDS_FACTORS);
  }

  /** The checks for negative durations never strike. */
  lemma NeverNegative(p: Parts, e: Engine, a: Arithmetic)
    requires Rounds(a)
    ensures Milliseconds(p, a).Finite? ==> Milliseconds(p, a).value >= 0.0
    ensures Seconds(p, e) >= 0.0
  {
    SumIsNatural(Amounts(p, Js()), MILLISECONDS_FACTORS, a);
    SecondsAreNatural(p, e);
  }

  /******* Without rounding, the filter and devpi read one duration *******/

  function Exact(limit: real): Arithmetic { Arithmetic((x: real) => x, limit) }

  /** The sum so far, as a double that is not rounded. */
  function ToExact(x: real, limit: real): Double { if x >= limit then Infinite else Finite(x) }

  lemma ScaledIsMore(x: real, k: real)
    requires x >= 0.0 && k >= 1.0
    ensures x * k >= x
  {
  }

  lemma TimesExactly(x: real, k: real, limit: real)
    requires x >= 0.0 && k >= 1.0
    ensures Times(ToExact(x, limit), k, Exact(limit)) == ToExact(x * k, limit)
  {
    ScaledIsMore(x, k);
  }

  lemma PlusExactly(x: real, y: real, limit: real)
    requires x >= 0.0 && y >= 0.0
    ensures Plus(ToExact(x, limit), ToExact(y, limit), Exact(limit)) == ToExact(x + y, limit)
  {
  }

  lemma AddsExactly(sum: real, x: real, factor: real, limit: real)
    requires sum >= 0.0 && x >= 0.0 && factor >= 1.0
    ensures AddPart(ToExact(sum, limit), Some(x), factor, Exact(limit)) == ToExact(sum + x * factor, limit)
  {
    ScaledIsMore(x, factor);
    TimesExactly(x, factor, limit);
    PlusExactly(sum, x * factor, limit);
    assert ToDouble(x, Exact(limit)) == ToExact(x, limit);
  }

  lemma StepsExactly(sum: Double, before: real, x: Option<real>, factor: real, total: real, limit: real)
    requires sum == ToExact(before, limit) && before >= 0.0 && factor >= 1.0 && (x.Some? ==> x.value >= 0.0)
    requires total == if x.None? then before else before + x.value * factor
    ensures AddPart(sum, x, factor, Exact(limit)) == ToExact(total, limit)
  {
    if x.Some? { AddsExactly(before, x.value, factor, limit); }
  }

  lemma {:induction false} SumsExactly(xs: seq<Option<real>>, factors: seq<real>, limit: real)
    requires limit > 0.0 && Natural(xs) && |xs| == |factors| && forall i | 0 <= i < |factors| :: factors[i] >= 1.0
    ensures Sum(xs, factors, Exact(limit)) == ToExact(Total(xs, factors), limit)
  {
    if xs != [] {
      var n := |xs| - 1;
      SumsExactly(xs[..n], factors[..n], limit);
      TotalIsNatural(xs[..n], factors[..n]);
      StepsExactly(Sum(xs[..n], factors[..n], Exact(limit)), Total(xs[..n], factors[..n]), xs[n], factors[n],
                   Total(xs, factors), limit);
    }
  }

  lemma {:induction false} TotalScales(xs: seq<Option<real>>, small: seq<real>, large: seq<real>)
    requires |xs| == |small| == |large| && forall i | 0 <= i < |xs| :: large[i] == 1000.0 * small[i]
    ensures Total(xs, large) == 1000.0 * Total(xs, small)
  {
    if xs != [] {
      var n := |xs| - 1;
      TotalScales(xs[..n], small[..n], large[..n]);
      if xs[n].Some? { ScalesOut(xs[n].value, small[n]); }
    }
  }

  lemma ScalesOut(x: real, k: real)
    ensures x * (1000.0 * k) == 1000.0 * (x * k)
  {
  }

  /** The exact sum, infinite from the limit on. */
  lemma ExactMilliseconds(p: Parts, limit: real)
    requires limit > 0.0
    ensures Milliseconds(p, Exact(limit)) == ToExact(1000.0 * Seconds(p, Js()), limit)
  {
    SumsExactly(Amounts(p, Js()), MILLISECONDS_FACTORS, limit);
    TotalScales(Amounts(p, Js()), SECONDS_FACTORS, MILLISECONDS_FACTORS);
  }

  /******* What is accepted *******/

  predicate SomethingNamed(p: Parts) {
    p.weeks.Some? || p.days.Some? || p.hours.Some? || p.minutes.Some? || p.seconds.Some?
  }

  /** policy-sync accepts what, stripped, the pattern matches with at least one part. */
  lemma AcceptedIff(raw: string, u: Decimals)
    requires Unicode(u)
    ensures ValidateMinAge(Some(raw), u).Some? <==> exists p :: Matches(Strip(raw), p, Python(u)) && SomethingNamed(p)
  {
    EnginesAreApart(u);
    var e := Python(u);
    if ReadIso(Strip(raw), e).Some? { ReadIsoExactly(Strip(raw), ReadIso(Strip(raw), e).value, e); }
    forall p | Matches(Strip(raw), p, e) ensures ReadIso(Strip(raw), e) == Some(p) { ReadIsoExactly(Strip(raw), p, e); }
  }

  /** The filter reads what, trimmed, the pattern matches with at least one part and finite milliseconds. */
  lemma ReadIff(raw: string, u: Decimals, a: Arithmetic)
    requires Unicode(u) && Rounds(a)
    ensures FilterMilliseconds(raw, a).Some? <==>
      exists p :: Matches(Trim(raw, JsSpace), p, Js()) && SomethingNamed(p) && Milliseconds(p, a).Finite?
  {
    EnginesAreApart(u);
    var t := Trim(raw, JsSpace);
    if ReadIso(t, Js()).Some? {
      ReadIsoExactly(t, ReadIso(t, Js()).value, Js());
      NeverNegative(ReadIso(t, Js()).value, Js(), a);
    }
    forall p | Matches(t, p, Js()) ensures ReadIso(t, Js()) == Some(p) { ReadIsoExactly(t, p, Js()); }
  }

  /** Space in front of a setting is not looked at, by either reader. */
  lemma SpaceInFront(raw: string, c: char, u: Decimals, a: Arithmetic)
    requires c == ' ' || '\t' <= c <= '\r'
    ensures ValidateMinAge(Some([c] + raw), u) == ValidateMinAge(Some(raw), u)
    ensures FilterMilliseconds([c] + raw, a) == FilterMilliseconds(raw, a)
  {
    assert ([c] + raw)[1..] == raw;
    assert StripLeft([c] + raw) == StripLeft(raw);
    assert TrimLeft([c] + raw, JsSpace) == TrimLeft(raw, JsSpace);
  }

  /******* Trimmed alike *******/

  lemma {:induction false} TrimsLikeStrip(s: string)
    ensures TrimLeft(s, IsSpace) == StripLeft(s) && TrimRight(s, IsSpace) == StripRight(s)
  {
    if s != [] {
      TrimsLikeStrip(s[1..]);
      TrimsLikeStrip(s[..|s| - 1]);
    }
  }

  predicate Dark(c: char) { !IsSpace(c) && !JsSpace(c) }

  lemma LettersAreDark(u: Decimals, c: char)
    requires Unicode(u)
    ensures u(c).Some? ==> Dark(c)
    ensures forall l | IsLetter(l) && Python(u).letter(l, c) :: Dark(c)
  {
  }

  lemma PythonAllowsDark(u: Decimals)
    requires Unicode(u)
    ensures Allows(Python(u), Dark)
  {
    forall c ensures (u(c).Some? ==> Dark(c)) && forall l | IsLetter(l) && Python(u).letter(l, c) :: Dark(c) {
      LettersAreDark(u, c);
    }
    assert Dark('.');
  }

  lemma MatchesAreDark(t: string, u: Decimals)
    requires Unicode(u) && (ReadIso(t, Js()).Some? || ReadIso(t, Python(u)).Some?)
    ensures t != [] && All(t, Dark)
  {
    EnginesDiffer(t, u);
    PythonAllowsDark(u);
    MatchIsAll(t, Python(u), Dark);
  }

  lemma DarkStays(t: string)
    requires t != [] && All(t, Dark)
    ensures Strip(t) == t && Trim(t, JsSpace) == t
  {
    assert Dark(t[0]) && Dark(t[|t| - 1]);
    assert Stripped(t);
    StripFacts(t);
  }

  lemma {:induction false} TrimRightIsFront(s: string, space: char -> bool)
    ensures TrimRight(s, space) <= s
  {
    if s != [] && space(s[|s| - 1]) { TrimRightIsFront(s[..|s| - 1], space); }
  }

  lemma {:induction false} LeftsAlike(s: string, p: char -> bool, q: char -> bool)
    requires var x, y := TrimLeft(s, p), TrimLeft(s, q); x != [] && y != [] && !q(x[0]) && !p(y[0])
    ensures TrimLeft(s, p) == TrimLeft(s, q)
  {
    if p(s[0]) && q(s[0]) { LeftsAlike(s[1..], p, q); }
  }

  lemma {:induction false} RightsAlike(s: string, p: char -> bool, q: char -> bool)
    requires var x, y := TrimRight(s, p), TrimRight(s, q); x != [] && y != [] && !q(x[|x| - 1]) && !p(y[|y| - 1])
    ensures TrimRight(s, p) == TrimRight(s, q)
  {
    if p(s[|s| - 1]) && q(s[|s| - 1]) { RightsAlike(s[..|s| - 1], p, q); }
  }

  /** Where both ways of trimming leave a text free of white space of either kind, they leave the same one. */
  lemma TrimsAlike(raw: string)
    requires Strip(raw) != [] && All(Strip(raw), Dark)
    requires Trim(raw, JsSpace) != [] && All(Trim(raw, JsSpace), Dark)
    ensures Strip(raw) == Trim(raw, JsSpace)
  {
    TrimsLikeStrip(raw);
    TrimsLikeStrip(StripLeft(raw));
    var x, y := TrimLeft(raw, IsSpace), TrimLeft(raw, JsSpace);
    TrimRightIsFront(x, IsSpace);
    TrimRightIsFront(y, JsSpace);
    assert x[0] == Strip(raw)[0] && y[0] == Trim(raw, JsSpace)[0];
    assert Dark(x[0]) && Dark(y[0]);
    LeftsAlike(raw, IsSpace, JsSpace);
    RightsAlike(x, IsSpace, JsSpace);
  }

  /******* The three readers agree, and where they do not *******/

  /** The duration is a finite number of milliseconds. */
  predicate Fits(t: string, a: Arithmetic) {
    ReadIso(t, Js()).Some? && Milliseconds(ReadIso(t, Js()).value, a).Finite?
  }

  /** On any setting: both accept it exactly where policy-sync does, trimming leaves the filter the same text, that text
      is ASCII and the duration fits; and what the filter accepts policy-sync rejects only where trimming differs. */
  lemma ReadersAgree(raw: string, u: Decimals, a: Arithmetic)
    requires Unicode(u) && Rounds(a)
    ensures var py, js := ValidateMinAge(Some(raw), u).Some?, FilterMilliseconds(raw, a).Some?;
      var sameTrim := Strip(raw) == Trim(raw, JsSpace);
      && (py && js <==> py && sameTrim && Ascii(Strip(raw)) && Fits(Strip(raw), a))
      && (js ==> (py <==> sameTrim))
  {
    var v, w := Strip(raw), Trim(raw, JsSpace);
    EnginesDiffer(v, u);
    EnginesDiffer(w, u);
    if ReadIso(w, Js()).Some? { NeverNegative(ReadIso(w, Js()).value, Js(), a); }
    if ReadIso(v, Python(u)).Some? && ReadIso(w, Js()).Some? {
      MatchesAreDark(v, u);
      MatchesAreDark(w, u);
      TrimsAlike(raw);
    }
  }

  /** devpi accepts what policy-sync accepts, and the empty setting. */
  lemma DevpiAgrees(raw: string, u: Decimals)
    ensures DevpiSeconds(raw, u).Some? <==> raw == [] || ValidateMinAge(Some(raw), u).Some?
  {
    var p := ReadIso(Strip(raw), Python(u));
    if p.Some? { SecondsAreNatural(p.value, Python(u)); }
    if raw == [] { assert Strip(raw) == []; }
  }

  /******* The setting a compiled policy carries *******/

  lemma {:induction false} SameValue(s: string, u: Decimals)
    requires Unicode(u) && AllDigits(s, Js())
    ensures DigitsValue(s, Js()) == DigitsValue(s, Python(u))
  {
    if s != [] {
      assert AsciiDigit(s[|s| - 1]).Some?;
      SameValue(s[..|s| - 1], u);
    }
  }

  lemma {:induction false} SameFraction(s: string, u: Decimals)
    requires Unicode(u) && AllDigits(s, Js())
    ensures FractionValue(s, Js()) == FractionValue(s, Python(u))
  {
    if s != [] {
      assert AsciiDigit(s[0]).Some?;
      SameFraction(s[1..], u);
    }
  }

  lemma SameAmount(n: Option<Number>, letter: char, text: string, u: Decimals)
    requires Unicode(u) && IsPart(text, n, letter, Js())
    ensures AmountOf(n, Js()) == AmountOf(n, Python(u))
  {
    if n.Some? {
      SameValue(n.value.whole, u);
      SameFraction(n.value.fraction, u);
    }
  }

  lemma SameDateAmounts(date: string, p: Parts, u: Decimals)
    requires Unicode(u) && IsDate(date, p, Js())
    ensures AmountOf(p.weeks, Js()) == AmountOf(p.weeks, Python(u))
    ensures AmountOf(p.days, Js()) == AmountOf(p.days, Python(u))
  {
    var weeks: string, days: string :|
      date == weeks + days && IsPart(weeks, p.weeks, 'W', Js()) && IsPart(days, p.days, 'D', Js());
    SameAmount(p.weeks, 'W', weeks, u);
    SameAmount(p.days, 'D', days, u);
  }

  lemma SameTimeAmounts(time: string, p: Parts, u: Decimals)
    requires Unicode(u) && IsTime(time, p, Js())
    ensures AmountOf(p.hours, Js()) == AmountOf(p.hours, Python(u))
    ensures AmountOf(p.minutes, Js()) == AmountOf(p.minutes, Python(u))
    ensures AmountOf(p.seconds, Js()) == AmountOf(p.seconds, Python(u))
  {
    if time != [] {
      var hours: string, minutes: string, seconds: string :|
        && time[1..] == hours + (minutes + seconds) && IsPart(hours, p.hours, 'H', Js())
        && IsPart(minutes, p.minutes, 'M', Js()) && IsPart(seconds, p.seconds, 'S', Js());
      SameAmount(p.hours, 'H', hours, u);
      SameAmount(p.minutes, 'M', minutes, u);
      SameAmount(p.seconds, 'S', seconds, u);
    }
  }

  /** A text both engines match stands for one duration. */
  lemma SameSeconds(t: string, u: Decimals)
    requires Unicode(u) && ReadIso(t, Js()).Some?
    ensures ReadIso(t, Python(u)) == ReadIso(t, Js())
    ensures Seconds(ReadIso(t, Js()).value, Js()) == Seconds(ReadIso(t, Js()).value, Python(u))
  {
    EnginesDiffer(t, u);
    FindsOnlyMatches(t, Js());
    var p := ReadIso(t, Js()).value;
    var date: string, time: string :| t[1..] == date + time && IsDate(date, p, Js()) && IsTime(time, p, Js());
    SameDateAmounts(date, p, u);
    SameTimeAmounts(time, p, u);
  }

  lemma DaysArePart(digits: string, e: Engine)
    requires digits != [] && AllDigits(digits, e) && e.letter('D', 'D')
    ensures IsPart(digits + "D", Some(Number(digits, [])), 'D', e)
  {
    var u := digits + "D";
    assert u[..|u| - 1] == digits && u[|u| - 1] == 'D' && NumberText(Number(digits, [])) == digits;
  }

  lemma DaysMatch(digits: string, e: Engine)
    requires digits != [] && AllDigits(digits, e) && e.letter('D', 'D')
    ensures IsDate(digits + "D", Parts(None, Some(Number(digits, [])), None, None, None), e)
  {
    var weeks: string, date := [], digits + "D";
    DaysArePart(digits, e);
    assert IsPart(weeks, None, 'W', e) && weeks + date == date;
  }

  /** So many days, in any engine. */
  lemma ReadsDays(digits: string, e: Engine)
    requires Apart(e) && digits != [] && AllDigits(digits, e) && e.letter('P', 'P') && e.letter('D', 'D')
    ensures ReadIso("P" + digits + "D", e) == Some(Parts(None, Some(Number(digits, [])), None, None, None))
  {
    var p := Parts(None, Some(Number(digits, [])), None, None, None);
    var t, none: string := "P" + digits + "D", [];
    DaysMatch(digits, e);
    assert t[1..] == digits + "D" + none && IsTime(none, p, e);
    assert t[0] == 'P';
    FindsEveryMatch(t, p, e);
  }

  /** The setting of a policy that policy-sync accepted. */
  lemma SettingIsDuration(raw: Option<string>, u: Decimals) returns (v: string)
    requires Unicode(u) && ValidateMinAge(raw, u).Some?
    ensures v == ValidateMinAge(raw, u).value && v != [] && Strip(v) == v && Trim(v, JsSpace) == v
    ensures ReadIso(v, Python(u)).Some? && !NothingNamed(ReadIso(v, Python(u)).value)
  {
    v := ValidateMinAge(raw, u).value;
    if raw.None? {
      EnginesAreApart(u);
      assert u('0') == Some(0) && "P" + "0" + "D" == "P0D";
      ReadsDays("0", Python(u));
    }
    MatchesAreDark(v, u);
    DarkStays(v);
  }

  /** The setting of an accepted policy: devpi reads it, and the filter reads it if and only if it is ASCII and fits. */
  lemma SettingIsRead(raw: Option<string>, u: Decimals, a: Arithmetic)
    requires Unicode(u) && Rounds(a) && ValidateMinAge(raw, u).Some?
    ensures var v := ValidateMinAge(raw, u).value;
      && DevpiSeconds(v, u).Some?
      && (FilterMilliseconds(v, a).Some? <==> Ascii(v) && Fits(v, a))
  {
    var v := SettingIsDuration(raw, u);
    SecondsAreNatural(ReadIso(v, Python(u)).value, Python(u));
    EnginesDiffer(v, u);
    if ReadIso(v, Js()).Some? { NeverNegative(ReadIso(v, Js()).value, Js(), a); }
  }

  lemma ExactReading(p: Parts, seconds: real, limit: real) returns (ms: real)
    requires limit > 0.0 && seconds == Seconds(p, Js())
    ensures ms == 1000.0 * seconds && ms >= 0.0 && Milliseconds(p, Exact(limit)) == ToExact(ms, limit)
  {
    SecondsAreNatural(p, Js());
    ExactMilliseconds(p, limit);
    ms := 1000.0 * seconds;
  }

  lemma DevpiReading(v: string, u: Decimals) returns (seconds: real)
    requires v != [] && Strip(v) == v
    requires ReadIso(v, Python(u)).Some? && !NothingNamed(ReadIso(v, Python(u)).value)
    ensures seconds == Seconds(ReadIso(v, Python(u)).value, Python(u)) && DevpiSeconds(v, u) == Some(seconds)
  {
    seconds := Seconds(ReadIso(v, Python(u)).value, Python(u));
    SecondsAreNatural(ReadIso(v, Python(u)).value, Python(u));
  }

  lemma FilterReading(v: string, ms: real, limit: real)
    requires Trim(v, JsSpace) == v && ReadIso(v, Js()).Some? && !NothingNamed(ReadIso(v, Js()).value)
    requires ms >= 0.0 && Milliseconds(ReadIso(v, Js()).value, Exact(limit)) == ToExact(ms, limit)
    ensures FilterMilliseconds(v, Exact(limit)) == if ms < limit then Some(ms) else None
  {
  }

  /** Without rounding, it fits if and only if a thousand times the seconds are below the limit, and then the filter
      waits as long as devpi. */
  lemma SettingIsOneDuration(raw: Option<string>, u: Decimals, limit: real) returns (seconds: real, ms: real)
    requires Unicode(u) && limit > 0.0 && ValidateMinAge(raw, u).Some? && Ascii(ValidateMinAge(raw, u).value)
    ensures DevpiSeconds(ValidateMinAge(raw, u).value, u) == Some(seconds)
    ensures ms == 1000.0 * seconds
    ensures FilterMilliseconds(ValidateMinAge(raw, u).value, Exact(limit)) == if ms < limit then Some(ms) else None
  {
    var v := SettingIsDuration(raw, u);
    EnginesDiffer(v, u);
    SameSeconds(v, u);
    seconds := DevpiReading(v, u);
    ms := ExactReading(ReadIso(v, Js()).value, seconds, limit);
    FilterReading(v, ms, limit);
  }

  /******* Settings that policy-sync accepts and the filter does not *******/

  /** A digit outside ASCII. */
  lemma OtherDigits(c: char, u: Decimals, a: Arithmetic)
    requires Unicode(u) && u(c).Some? && c >= '\U{80}'
    ensures ValidateMinAge(Some("P" + [c] + "D"), u) == Some("P" + [c] + "D")
    ensures FilterMilliseconds("P" + [c] + "D", a).None?
  {
    var t := "P" + [c] + "D";
    EnginesAreApart(u);
    ReadsDays([c], Python(u));
    MatchesAreDark(t, u);
    DarkStays(t);
    EnginesDiffer(t, u);
    assert t[1] == c && !Ascii(t);
  }

  /** A number of days beyond the doubles. */
  lemma TooManyDays(digits: string, u: Decimals, a: Arithmetic)
    requires Unicode(u) && Rounds(a) && digits != [] && AllDigits(digits, Js())
    requires DigitsValue(digits, Js()) as real >= a.limit
    ensures ValidateMinAge(Some("P" + digits + "D"), u) == Some("P" + digits + "D")
    ensures FilterMilliseconds("P" + digits + "D", a).None?
  {
    var t := "P" + digits + "D";
    EnginesAreApart(u);
    ReadsDays(digits, Js());
    MatchesAreDark(t, u);
    DarkStays(t);
    EnginesDiffer(t, u);
    var p := ReadIso(t, Js()).value;
    DaysBeyond(p, a);
  }

  lemma DaysBeyond(p: Parts, a: Arithmetic)
    requires Rounds(a) && p.weeks.None? && p.hours.None? && p.minutes.None? && p.seconds.None?
    requires p.days.Some? && p.days.value.fraction == [] && DigitsValue(p.days.value.whole, Js()) as real >= a.limit
    ensures Milliseconds(p, a).Infinite?
  {
    var xs, fs := Amounts(p, Js()), MILLISECONDS_FACTORS;
    var x := xs[1].value;
    assert x == DigitsValue(p.days.value.whole, Js()) as real;
    assert a.round(a.limit) <= a.round(x);
    LastAddsNothing(xs, fs, a);
    LastAddsNothing(xs[..4], fs[..4], a);
    LastAddsNothing(xs[..3], fs[..3], a);
    assert xs[..4][..3] == xs[..3] && fs[..4][..3] == fs[..3];
    assert xs[..3][..2] == xs[..2] && fs[..3][..2] == fs[..2];
    assert Sum(xs[..2], fs[..2], a).Infinite?;
  }

  lemma LastAddsNothing(xs: seq<Option<real>>, fs: seq<real>, a: Arithmetic)
    requires |xs| == |fs| > 0 && xs[|xs| - 1].None?
    ensures Sum(xs, fs, a) == Sum(xs[..|xs| - 1], fs[..|fs| - 1], a)
  {
  }

  function Power(b: nat, n: nat): nat { if n == 0 then 1 else b * Power(b, n - 1) }

  function Zeros(n: nat): string { if n == 0 then [] else Zeros(n - 1) + ['0'] }

  lemma {:induction false} ZerosFollow(n: nat)
    ensures AllDigits(['1'] + Zeros(n), Js()) && DigitsValue(['1'] + Zeros(n), Js()) == Power(10, n)
  {
    var s := ['1'] + Zeros(n);
    assert AsciiDigit('1') == Some(1) && AsciiDigit('0') == Some(0);
    if n == 0 {
      assert s == ['1'] && s[..0] == [];
    } else {
      ZerosFollow(n - 1);
      assert s[..|s| - 1] == ['1'] + Zeros(n - 1) && s[|s| - 1] == '0';
      forall i | 0 <= i < |s| ensures AsciiDigit(s[i]).Some? {
        if i < |s| - 1 { assert s[i] == s[..|s| - 1][i]; }
      }
    }
  }

  lemma {:induction false} TenIsMore(n: nat)
    ensures Power(10, n) >= Power(2, n)
  {
    if n > 0 { TenIsMore(n - 1); }
  }

  /** Numbers are infinite from two to the `bits` on, 1024 for doubles: a one and that many zeros are too many days. */
  lemma LongSettingFails(bits: nat, u: Decimals, a: Arithmetic)
    requires Unicode(u) && Rounds(a) && a.limit <= Power(2, bits) as real
    ensures var setting := "P" + (['1'] + Zeros(bits)) + "D";
      ValidateMinAge(Some(setting), u) == Some(setting) && FilterMilliseconds(setting, a).None?
  {
    ZerosFollow(bits);
    TenIsMore(bits);
    TooManyDays(['1'] + Zeros(bits), u, a);
  }
}

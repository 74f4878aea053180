/** The CalVer release gate (scripts/openclaw-npm-release-check.ts): which version strings
    and which release tags it lets through. */
module ReleaseCheck {
  import opened Text
  import opened Calendar

  datatype Channel = Stable | Beta

  datatype ParsedReleaseVersion = ParsedReleaseVersion(
    version: string, channel: Channel, year: nat, month: nat, day: nat, betaNumber: Option<nat>, date: int)

  datatype ParsedReleaseTag = ParsedReleaseTag(
    version: string, packageVersion: string, channel: Channel, correctionNumber: Option<nat>, date: int)

  const MAX_CALVER_DISTANCE_DAYS: nat := 2

  // ---------- the grammar ----------

  /** `[1-9]\d?` */
  predicate IsShortNumeral(s: string) {
    1 <= |s| <= 2 && AllDigits(s) && s[0] != '0'
  }

  /** `[1-9]\d*` */
  predicate IsPositiveNumeral(s: string) {
    IsCanonical(s) && s[0] != '0'
  }

  /** `\d{4}\.[1-9]\d?\.[1-9]\d?` followed by the rest. */
  datatype Base = Base(year: string, month: string, day: string, rest: string) {
    predicate Valid() {
      |year| == 4 && AllDigits(year) && IsShortNumeral(month) && IsShortNumeral(day)
    }

    function Text(): string {
      year + "." + month + "." + day + rest
    }
  }

  /** The base with a month of m and a day of d characters at the start of t. */
  function BaseAt(t: string, m: nat, d: nat): Option<Base> {
    if |t| < 6 + m + d || t[4] != '.' || t[5 + m] != '.' then None
    else
      var b := Base(t[..4], t[5..5 + m], t[6 + m..6 + m + d], t[6 + m + d..]);
      if b.Valid() then Some(b) else None
  }

  datatype Suffix = NoSuffix | BetaSuffix | CorrectionSuffix

  predicate HasSuffix(rest: string, suffix: Suffix) {
    match suffix
    case NoSuffix => rest == ""
    case BetaSuffix => |rest| > 6 && rest[..6] == "-beta." && IsPositiveNumeral(rest[6..])
    case CorrectionSuffix => |rest| > 1 && rest[0] == '-' && IsPositiveNumeral(rest[1..])
  }

  function Accepts(b: Option<Base>, suffix: Suffix): bool {
    b.Some? && HasSuffix(b.value.rest, suffix)
  }

  /** The match of one of the three version patterns against the whole of t. */
  function Match(t: string, suffix: Suffix): Option<Base> {
    if Accepts(BaseAt(t, 2, 2), suffix) then BaseAt(t, 2, 2)
    else if Accepts(BaseAt(t, 2, 1), suffix) then BaseAt(t, 2, 1)
    else if Accepts(BaseAt(t, 1, 2), suffix) then BaseAt(t, 1, 2)
    else if Accepts(BaseAt(t, 1, 1), suffix) then BaseAt(t, 1, 1)
    else None
  }

  // ---------- parsing ----------

  /** parseDateParts, for a match whose groups are digit strings. */
  function ParseDateParts(version: string, b: Base, beta: Option<string>): Option<ParsedReleaseVersion>
    requires b.Valid() && (beta.Some? ==> AllDigits(beta.value))
  {
    var year, month, day := Val(b.year), Val(b.month), Val(b.day);
    var number := if beta.Some? then ToDouble(Val(beta.value)) else Finite(1);
    if month < 1 || month > 12 || day < 1 || day > 31 then None
    else if number.Infinity? || number.value < 1 then None
    else if !RoundTrips(year, month - 1, day) then None
    else Some(ParsedReleaseVersion(version, if beta.Some? then Beta else Stable, year, month, day,
                                   if beta.Some? then Some(number.value) else None, DateUTC(year, month - 1, day)))
  }

  function ParseTrimmed(t: string): Option<ParsedReleaseVersion> {
    match Match(t, NoSuffix)
    case Some(b) => ParseDateParts(t, b, None)
    case None =>
      match Match(t, BetaSuffix)
      case Some(b) => ParseDateParts(t, b, Some(b.rest[6..]))
      case None => None
  }

  function ParseReleaseVersion(version: string): Option<ParsedReleaseVersion> {
    ParseTrimmed(Trim(version))
  }

  function ParseReleaseTagVersion(version: string): Option<ParsedReleaseTag> {
    var t := Trim(version);
    match ParseReleaseVersion(t)
    case Some(p) => Some(ParsedReleaseTag(t, p.version, p.channel, None, p.date))
    case None =>
      match Match(t, CorrectionSuffix)
      case None => None
      case Some(b) =>
        var base := ParseReleaseVersion(b.(rest := "").Text());
        var correction := ToDouble(Val(b.rest[1..]));
        if base.None? || base.value.channel != Stable || correction.Infinity? || correction.value < 1 then None
        else Some(ParsedReleaseTag(t, base.value.version, Stable, Some(correction.value), base.value.date))
  }

  // ---------- what the grammar means ----------

  predicate StartsWithDigit(s: string) {
    s != "" && IsDigit(s[0])
  }

  lemma TextBaseAt(b: Base)
    requires b.Valid()
    ensures BaseAt(b.Text(), |b.month|, |b.day|) == Some(b)
  {
    var t, m, d := b.Text(), |b.month|, |b.day|;
    assert t[..4] == b.year && t[4] == '.';
    assert t[5..5 + m] == b.month && t[5 + m] == '.';
    assert t[6 + m..6 + m + d] == b.day && t[6 + m + d..] == b.rest;
  }

  lemma MonthLengths(b: Base, c: Base)
    requires b.Valid() && c.Valid() && b.Text() == c.Text()
    ensures |b.month| >= |c.month|
  {
    assert |b.month| == 1 ==> b.Text()[6] == '.';
    assert |c.month| == 2 ==> c.Text()[6] == c.month[1];
  }

  lemma DayLengths(b: Base, c: Base)
    requires b.Valid() && c.Valid() && b.Text() == c.Text() && |b.month| == |c.month| && !StartsWithDigit(b.rest)
    ensures |b.day| >= |c.day|
  {
    var k := 6 + |b.month| + 1;
    assert |c.day| == 2 ==> c.Text()[k] == c.day[1];
    assert |b.day| == 1 ==> |b.Text()| == k + |b.rest|;
    assert |b.day| == 1 && b.rest != "" ==> b.Text()[k] == b.rest[0];
  }

  /** A text is read in only one way as a base and a rest that does not start with a digit. */
  lemma BaseUnique(b: Base, c: Base)
    requires b.Valid() && c.Valid() && b.Text() == c.Text()
    requires !StartsWithDigit(b.rest) && !StartsWithDigit(c.rest)
    ensures b == c
  {
    TextBaseAt(b);
    TextBaseAt(c);
    if |b.month| < |c.month| {
      MonthLengths(b, c);
    } else if |c.month| < |b.month| {
      MonthLengths(c, b);
    } else if |b.day| < |c.day| {
      DayLengths(b, c);
    } else if |c.day| < |b.day| {
      DayLengths(c, b);
    }
  }

  lemma SuffixIsNoDigit(rest: string, suffix: Suffix)
    requires HasSuffix(rest, suffix)
    ensures !StartsWithDigit(rest)
  {
    if suffix == BetaSuffix {
      assert rest[0] == rest[..6][0];
    }
  }

  lemma AcceptedBase(t: string, m: nat, d: nat, suffix: Suffix)
    ensures Accepts(BaseAt(t, m, d), suffix) ==>
              var b := BaseAt(t, m, d).value; b.Valid() && b.Text() == t && HasSuffix(b.rest, suffix)
  {
    if Accepts(BaseAt(t, m, d), suffix) {
      var b := BaseAt(t, m, d).value;
      assert t == t[..4] + "." + t[5..5 + m] + "." + t[6 + m..6 + m + d] + t[6 + m + d..] == b.Text();
    }
  }

  lemma MatchSound(t: string, suffix: Suffix)
    ensures Match(t, suffix).Some? ==>
              var b := Match(t, suffix).value; b.Valid() && b.Text() == t && HasSuffix(b.rest, suffix)
  {
    AcceptedBase(t, 2, 2, suffix);
    AcceptedBase(t, 2, 1, suffix);
    AcceptedBase(t, 1, 2, suffix);
    AcceptedBase(t, 1, 1, suffix);
  }

  lemma MatchFinds(b: Base, suffix: Suffix)
    requires b.Valid() && HasSuffix(b.rest, suffix)
    ensures Match(b.Text(), suffix).Some?
  {
    TextBaseAt(b);
    assert Accepts(BaseAt(b.Text(), |b.month|, |b.day|), suffix);
  }

  /** The matcher finds a reading exactly when there is one, and it is that one. */
  lemma MatchIff(t: string, suffix: Suffix, b: Base)
    ensures Match(t, suffix) == Some(b) <==> b.Valid() && b.Text() == t && HasSuffix(b.rest, suffix)
  {
    MatchSound(t, suffix);
    if b.Valid() && b.Text() == t && HasSuffix(b.rest, suffix) {
      MatchFinds(b, suffix);
      var r := Match(t, suffix).value;
      SuffixIsNoDigit(b.rest, suffix);
      SuffixIsNoDigit(r.rest, suffix);
      BaseUnique(b, r);
    }
  }

  // ---------- which versions are accepted ----------

  /** `String(y).padStart(4, "0")` for a year below 10000. */
  function Pad4(y: nat): string
    requires y < 10000
  {
    Pad2(y / 100) + Pad2(y % 100)
  }

  function BetaText(beta: Option<nat>): string {
    match beta
    case None => ""
    case Some(n) => "-beta." + Dec(n)
  }

  /** The text YYYY.M.D or YYYY.M.D-beta.N. */
  function Render(y: nat, m: nat, d: nat, beta: Option<nat>): string
    requires y < 10000
  {
    Pad4(y) + "." + Dec(m) + "." + Dec(d) + BetaText(beta)
  }

  /** A date of the Gregorian calendar from the year 100 on, and a beta number that is at
      least 1 and does not overflow to infinity when it is read. */
  predicate IsRelease(y: nat, m: nat, d: nat, beta: Option<nat>) {
    && 100 <= y <= 9999 && 1 <= m <= 12 && 1 <= d <= DaysInMonth(y, m - 1)
    && (beta.Some? ==> beta.value >= 1 && !Overflows(beta.value))
  }

  function Parsed(y: nat, m: nat, d: nat, beta: Option<nat>): ParsedReleaseVersion
    requires IsRelease(y, m, d, beta)
  {
    ParsedReleaseVersion(Render(y, m, d, beta), if beta.Some? then Beta else Stable, y, m, d,
                         if beta.Some? then Some(ToDouble(beta.value).value) else None,
                         MakeDay(y, m - 1, d) * MS_PER_DAY)
  }

  lemma TwoDigits(s: string)
    requires |s| == 2 && AllDigits(s) && Val(s) < 100
    ensures Pad2(Val(s)) == s
  {
    var a, b := DigitValue(s[0]), DigitValue(s[1]);
    assert s[..1] == [s[0]] && s[..1][..0] == "";
    assert Val(s[..1]) == a;
    assert Val(s) == 10 * a + b;
    assert s == [DigitChar(a)] + [DigitChar(b)];
    if a == 0 {
      assert Dec(b) == [DigitChar(b)];
    } else {
      assert (10 * a + b) / 10 == a && (10 * a + b) % 10 == b;
      assert Dec(10 * a + b) == Dec(a) + [DigitChar(b)];
    }
  }

  lemma FourDigits(s: string)
    requires |s| == 4 && AllDigits(s)
    ensures Val(s) < 10000 && Pad4(Val(s)) == s
  {
    var a, b := s[..2], s[2..];
    assert s == a + b;
    ValConcat(a, b);
    ValBound(a);
    ValBound(b);
    assert Pow10(2) == 100 by { assert Pow10(1) == 10; }
    assert Val(s) / 100 == Val(a) && Val(s) % 100 == Val(b);
    TwoDigits(a);
    TwoDigits(b);
  }

  lemma Pad4Digits(y: nat)
    requires y < 10000
    ensures |Pad4(y)| == 4 && AllDigits(Pad4(y)) && Val(Pad4(y)) == y
  {
    Pad2Meaning(y / 100);
    Pad2Meaning(y % 100);
    ValConcat(Pad2(y / 100), Pad2(y % 100));
    assert Pow10(2) == 100 by { assert Pow10(1) == 10; }
  }

  lemma {:induction false} ShortNumeral(s: string)
    requires IsShortNumeral(s)
    ensures 1 <= Val(s) < 100 && Dec(Val(s)) == s
  {
    ValPositive(s);
    DecVal(s);
    DecLength(Val(s));
  }

  lemma {:induction false} ShortDec(n: nat)
    requires 1 <= n < 100
    ensures IsShortNumeral(Dec(n)) && Val(Dec(n)) == n
  {
    DecCanonical(n);
    DecLength(n);
    ValDec(n);
  }

  /** The base a rendered release consists of. */
  function BaseOf(y: nat, m: nat, d: nat, rest: string): Base
    requires y < 10000
  {
    Base(Pad4(y), Dec(m), Dec(d), rest)
  }

  lemma BaseOfValid(y: nat, m: nat, d: nat, rest: string)
    requires y < 10000 && 1 <= m < 100 && 1 <= d < 100
    ensures var b := BaseOf(y, m, d, rest);
            b.Valid() && Val(b.year) == y && Val(b.month) == m && Val(b.day) == d
  {
    Pad4Digits(y);
    ShortDec(m);
    ShortDec(d);
  }

  lemma BaseIsBaseOf(b: Base)
    requires b.Valid()
    ensures Val(b.year) < 10000 && 1 <= Val(b.month) < 100 && 1 <= Val(b.day) < 100
    ensures b == BaseOf(Val(b.year), Val(b.month), Val(b.day), b.rest)
  {
    FourDigits(b.year);
    ShortNumeral(b.month);
    ShortNumeral(b.day);
  }

  lemma BetaSuffixIff(rest: string)
    ensures HasSuffix(rest, BetaSuffix) ==>
              rest == BetaText(Some(Val(rest[6..]))) && Val(rest[6..]) >= 1
  {
    if HasSuffix(rest, BetaSuffix) {
      DecVal(rest[6..]);
      ValPositive(rest[6..]);
      assert rest == rest[..6] + rest[6..];
    }
  }

  lemma {:induction false} BetaTextHasSuffix(n: nat)
    requires n >= 1
    ensures HasSuffix(BetaText(Some(n)), BetaSuffix) && BetaText(Some(n))[6..] == Dec(n) && Val(Dec(n)) == n
  {
    DecCanonical(n);
    ValDec(n);
  }

  lemma OverflowIsInfinity(n: nat)
    ensures ToDouble(n).Infinity? <==> Overflows(n)
    ensures n >= 1 && ToDouble(n).Finite? ==> ToDouble(n).value >= 1
  {
    ToDoubleKeepsOrder(n, 1);
  }

  lemma MonthAtMost31(y: int, month: int)
    ensures DaysInMonth(y, month) <= 31
  {
  }

  lemma DateIsRelease(y: nat, m: nat, d: nat)
    requires y <= 9999 && 1 <= m <= 12 && 1 <= d <= 31
    ensures IsRelease(y, m, d, None) <==> RoundTrips(y, m - 1, d)
    ensures IsRelease(y, m, d, None) ==> DateUTC(y, m - 1, d) == MakeDay(y, m - 1, d) * MS_PER_DAY
  {
    RoundTripsIff(y, m - 1, d);
  }

  lemma NoDateBeyond(y: nat, m: nat, d: nat)
    requires m > 12 || d > 31
    ensures !IsRelease(y, m, d, None)
  {
    if 1 <= m <= 12 {
      MonthAtMost31(y, m - 1);
    }
  }

  lemma ParseDateIff(version: string, b: Base)
    requires b.Valid()
    ensures var y, m, d, p := Val(b.year), Val(b.month), Val(b.day), ParseDateParts(version, b, None);
            && (p.Some? <==> IsRelease(y, m, d, None))
            && (p.Some? ==> p.value == Parsed(y, m, d, None).(version := version))
  {
    BaseIsBaseOf(b);
    var y, m, d := Val(b.year), Val(b.month), Val(b.day);
    if m <= 12 && d <= 31 {
      DateIsRelease(y, m, d);
    } else {
      NoDateBeyond(y, m, d);
    }
  }

  /** What ParseDateParts makes of a match, in terms of the numbers it denotes. */
  lemma ParseDatePartsIff(version: string, b: Base, beta: Option<string>)
    requires b.Valid() && (beta.Some? ==> IsPositiveNumeral(beta.value))
    ensures var y, m, d := Val(b.year), Val(b.month), Val(b.day);
            var n := if beta.Some? then Some(Val(beta.value)) else None;
            var p := ParseDateParts(version, b, beta);
            (p.Some? <==> IsRelease(y, m, d, n)) && (p.Some? ==> p.value == Parsed(y, m, d, n).(version := version))
  {
    ParseDateIff(version, b);
    if beta.Some? {
      OverflowIsInfinity(Val(beta.value));
      ValPositive(beta.value);
    }
  }

  lemma DifferentSuffixes(rest: string, s: Suffix, t: Suffix)
    requires HasSuffix(rest, s) && HasSuffix(rest, t)
    ensures s == t
  {
    assert HasSuffix(rest, BetaSuffix) ==> rest[1] == rest[..6][1] == 'b';
    assert HasSuffix(rest, CorrectionSuffix) ==> rest[1] == rest[1..][0] && IsDigit(rest[1..][0]);
  }

  /** A text that matches one of the patterns matches no other. */
  lemma OneSuffix(t: string, other: Suffix, suffix: Suffix, b: Base)
    requires Match(t, suffix) == Some(b) && other != suffix
    ensures Match(t, other) == None
  {
    MatchIff(t, suffix, b);
    if Match(t, other).Some? {
      var c := Match(t, other).value;
      MatchIff(t, other, c);
      SuffixIsNoDigit(b.rest, suffix);
      SuffixIsNoDigit(c.rest, other);
      BaseUnique(b, c);
      DifferentSuffixes(b.rest, suffix, other);
    }
  }

  lemma ParsedText(y: nat, m: nat, d: nat, beta: Option<nat>)
    requires IsRelease(y, m, d, beta)
    ensures ParseTrimmed(Render(y, m, d, beta)) == Some(Parsed(y, m, d, beta))
  {
    var t, rest := Render(y, m, d, beta), BetaText(beta);
    var b := BaseOf(y, m, d, rest);
    BaseOfValid(y, m, d, rest);
    assert t == b.Text();
    if beta.None? {
      MatchIff(t, NoSuffix, b);
      ParseDatePartsIff(t, b, None);
    } else {
      BetaTextHasSuffix(beta.value);
      MatchIff(t, BetaSuffix, b);
      OneSuffix(t, NoSuffix, BetaSuffix, b);
      DecCanonical(beta.value);
      ParseDatePartsIff(t, b, Some(rest[6..]));
    }
  }

  lemma ParsedIsRelease(t: string)
    requires ParseTrimmed(t).Some?
    ensures exists beta: Option<nat> :: var p := ParseTrimmed(t).value;
              IsRelease(p.year, p.month, p.day, beta) && t == Render(p.year, p.month, p.day, beta)
              && p == Parsed(p.year, p.month, p.day, beta)
  {
    if Match(t, NoSuffix).Some? {
      var b := Match(t, NoSuffix).value;
      MatchIff(t, NoSuffix, b);
      BaseIsBaseOf(b);
      ParseDatePartsIff(t, b, None);
      assert IsRelease(Val(b.year), Val(b.month), Val(b.day), None)
             && t == Render(Val(b.year), Val(b.month), Val(b.day), None);
    } else {
      var b := Match(t, BetaSuffix).value;
      MatchIff(t, BetaSuffix, b);
      BaseIsBaseOf(b);
      BetaSuffixIff(b.rest);
      ParseDatePartsIff(t, b, Some(b.rest[6..]));
      var beta := Some(Val(b.rest[6..]));
      assert IsRelease(Val(b.year), Val(b.month), Val(b.day), beta)
             && t == Render(Val(b.year), Val(b.month), Val(b.day), beta);
    }
  }

  /** parseReleaseVersion accepts exactly the trimmed canonical texts of releases, and returns
      the fields and the date that were written. */
  lemma ParseReleaseVersionIff(version: string, p: ParsedReleaseVersion)
    ensures ParseReleaseVersion(version) == Some(p) <==>
              exists y: nat, m: nat, d: nat, beta: Option<nat> ::
                IsRelease(y, m, d, beta) && Trim(version) == Render(y, m, d, beta) && p == Parsed(y, m, d, beta)
  {
    if ParseReleaseVersion(version) == Some(p) {
      ParsedIsRelease(Trim(version));
    }
    if y: nat, m: nat, d: nat, beta: Option<nat> :|
      IsRelease(y, m, d, beta) && Trim(version) == Render(y, m, d, beta) && p == Parsed(y, m, d, beta)
    {
      ParsedText(y, m, d, beta);
    }
  }

  /** What is read from an accepted version: year, month and day as they were written, and the beta
      number as well exactly when it has at most 53 significant bits. */
  lemma ParsedFieldsIff(version: string, y: nat, m: nat, d: nat, beta: Option<nat>)
    requires IsRelease(y, m, d, beta) && Trim(version) == Render(y, m, d, beta)
    ensures var q := ParseReleaseVersion(version);
            && q.Some? && q.value.year == y && q.value.month == m && q.value.day == d
            && (q.value.betaNumber == beta <==> beta.None? || Is53Bit(beta.value))
  {
    ParsedText(y, m, d, beta);
    if beta.Some? {
      RoundedIff(beta.value);
    }
  }

  /** Below 2^53, where decimals are written out, printing the fields gives the trimmed version back. */
  lemma PrintParsed(version: string, y: nat, m: nat, d: nat, beta: Option<nat>)
    requires IsRelease(y, m, d, beta) && Trim(version) == Render(y, m, d, beta)
    requires beta.None? || beta.value < EXACT_LIMIT
    ensures var q := ParseReleaseVersion(version);
            q.Some? && q.value.year < 10000
            && Render(q.value.year, q.value.month, q.value.day, q.value.betaNumber) == Trim(version)
  {
    ParsedFieldsIff(version, y, m, d, beta);
  }

  lemma RoundsToExactLimit()
    ensures ToDouble(EXACT_LIMIT + 1) == Finite(EXACT_LIMIT)
  {
    SmallIsFinite(EXACT_LIMIT + 1);
    assert Spacing(EXACT_LIMIT + 1) == 2 * Spacing((EXACT_LIMIT + 1) / 2) == 2;
  }

  lemma DifferentBetas(y: nat, m: nat, d: nat, a: nat, b: nat)
    requires y < 10000 && a != b
    ensures Render(y, m, d, Some(a)) != Render(y, m, d, Some(b))
  {
    ValDec(a);
    ValDec(b);
    var front := Pad4(y) + "." + Dec(m) + "." + Dec(d);
    assert (front + BetaText(Some(a)))[|front|..] == BetaText(Some(a));
    assert (front + BetaText(Some(b)))[|front|..] == BetaText(Some(b));
    assert BetaText(Some(a))[6..] == Dec(a) && BetaText(Some(b))[6..] == Dec(b);
  }

  /** The smallest beta number that is read as another one, and so does not print back. */
  lemma BetaAboveExactLimit(y: nat, m: nat, d: nat)
    requires IsRelease(y, m, d, None)
    ensures var t := Render(y, m, d, Some(EXACT_LIMIT + 1)); var q := ParseTrimmed(t);
            && q.Some? && q.value.betaNumber == Some(EXACT_LIMIT)
            && Render(y, m, d, q.value.betaNumber) != t
  {
    SmallIsFinite(EXACT_LIMIT + 1);
    ParsedText(y, m, d, Some(EXACT_LIMIT + 1));
    RoundsToExactLimit();
    DifferentBetas(y, m, d, EXACT_LIMIT, EXACT_LIMIT + 1);
  }

  // ---------- tags ----------

  /** The two texts a tag may carry for the release: its own, and for a stable one its own
      with a positive correction number that does not overflow. */
  ghost predicate NamesRelease(t: string, y: nat, m: nat, d: nat, beta: Option<nat>)
    requires y < 10000
  {
    t == Render(y, m, d, beta)
    || (beta.None? && exists n :: 1 <= n && !Overflows(n) && t == Render(y, m, d, None) + "-" + Dec(n))
  }

  lemma BaseIsTrimmed(b: Base)
    requires b.Valid()
    ensures IsTrimmed(b.(rest := "").Text())
  {
  }

  /** The last branch of parseReleaseTagVersion. */
  lemma TagByCorrection(t: string, b: Base)
    requires IsTrimmed(t) && ParseTrimmed(t) == None && Match(t, CorrectionSuffix) == Some(b) && b.Valid()
    ensures HasSuffix(b.rest, CorrectionSuffix)
    ensures var base, n := ParseTrimmed(b.(rest := "").Text()), Val(b.rest[1..]);
            ParseReleaseTagVersion(t)
            == if base.None? || base.value.channel != Stable || Overflows(n) then None
               else Some(ParsedReleaseTag(t, base.value.version, Stable, Some(ToDouble(n).value), base.value.date))
  {
    MatchIff(t, CorrectionSuffix, b);
    TrimFixed(t);
    BaseIsTrimmed(b);
    TrimFixed(b.(rest := "").Text());
    ValPositive(b.rest[1..]);
    OverflowIsInfinity(Val(b.rest[1..]));
  }

  lemma CorrectionBase(y: nat, m: nat, d: nat, n: nat)
    requires IsRelease(y, m, d, None) && n >= 1
    ensures var b := BaseOf(y, m, d, "-" + Dec(n));
            && b.Valid() && HasSuffix(b.rest, CorrectionSuffix) && Val(b.rest[1..]) == n
            && b.Text() == Render(y, m, d, None) + "-" + Dec(n)
            && b.(rest := "").Text() == Render(y, m, d, None)
  {
    var rest := "-" + Dec(n);
    BaseOfValid(y, m, d, rest);
    DecCanonical(n);
    ValDec(n);
    assert rest[1..] == Dec(n);
  }

  lemma CorrectionIsTrimmed(b: Base)
    requires b.Valid() && HasSuffix(b.rest, CorrectionSuffix)
    ensures IsTrimmed(b.Text())
  {
    var t, number := b.Text(), b.rest[1..];
    assert t[0] == b.year[0];
    assert t[|t| - 1] == b.rest[|b.rest| - 1] == number[|number| - 1];
  }

  lemma CorrectionMatches(b: Base)
    requires b.Valid() && HasSuffix(b.rest, CorrectionSuffix)
    ensures ParseTrimmed(b.Text()) == None && Match(b.Text(), CorrectionSuffix) == Some(b) && IsTrimmed(b.Text())
  {
    var t := b.Text();
    MatchIff(t, CorrectionSuffix, b);
    OneSuffix(t, NoSuffix, CorrectionSuffix, b);
    OneSuffix(t, BetaSuffix, CorrectionSuffix, b);
    CorrectionIsTrimmed(b);
  }

  lemma CorrectionParses(y: nat, m: nat, d: nat, n: nat)
    requires IsRelease(y, m, d, None) && 1 <= n && !Overflows(n)
    ensures var t := Render(y, m, d, None) + "-" + Dec(n);
            ParseReleaseTagVersion(t) ==
            Some(ParsedReleaseTag(t, Render(y, m, d, None), Stable, Some(ToDouble(n).value),
                                  MakeDay(y, m - 1, d) * MS_PER_DAY))
  {
    var b := BaseOf(y, m, d, "-" + Dec(n));
    CorrectionBase(y, m, d, n);
    CorrectionMatches(b);
    ParsedText(y, m, d, None);
    TagByCorrection(b.Text(), b);
  }

  lemma CorrectionText(b: Base)
    requires b.Valid() && HasSuffix(b.rest, CorrectionSuffix)
    ensures b.Text() == b.(rest := "").Text() + "-" + Dec(Val(b.rest[1..])) && Val(b.rest[1..]) >= 1
  {
    DecVal(b.rest[1..]);
    ValPositive(b.rest[1..]);
    assert b.rest == "-" + b.rest[1..];
  }

  lemma CorrectionMeans(t: string, y: nat, m: nat, d: nat, beta: Option<nat>)
    requires IsRelease(y, m, d, beta) && IsTrimmed(t) && ParseTrimmed(t) == None
    requires var q := ParseReleaseTagVersion(t);
             q.Some? && q.value.packageVersion == Render(y, m, d, beta)
               && q.value.channel == if beta.Some? then Beta else Stable
    ensures NamesRelease(t, y, m, d, beta)
  {
    TrimFixed(t);
    var b := Match(t, CorrectionSuffix).value;
    MatchSound(t, CorrectionSuffix);
    TagByCorrection(t, b);
    var text, n := b.(rest := "").Text(), Val(b.rest[1..]);
    ParsedIsRelease(text);
    CorrectionText(b);
    assert t == text + "-" + Dec(n) && text == Render(y, m, d, beta);
  }

  /** A tag version parses to a release exactly when it names it. */
  lemma TagNamesRelease(tag: string, y: nat, m: nat, d: nat, beta: Option<nat>)
    requires IsRelease(y, m, d, beta)
    ensures var q, p := ParseReleaseTagVersion(tag), Parsed(y, m, d, beta);
            q.Some? && q.value.packageVersion == p.version && q.value.channel == p.channel
            <==> NamesRelease(Trim(tag), y, m, d, beta)
  {
    var t, q, p := Trim(tag), ParseReleaseTagVersion(tag), Parsed(y, m, d, beta);
    TrimIdempotent(tag);
    if NamesRelease(t, y, m, d, beta) {
      if t == Render(y, m, d, beta) {
        ParsedText(y, m, d, beta);
      } else {
        var n :| 1 <= n && !Overflows(n) && t == Render(y, m, d, None) + "-" + Dec(n);
        CorrectionParses(y, m, d, n);
      }
    }
    if q.Some? && q.value.packageVersion == p.version && q.value.channel == p.channel {
      if ParseTrimmed(t).Some? {
        ParsedIsRelease(t);
      } else {
        CorrectionMeans(t, y, m, d, beta);
      }
    }
  }

  // ---------- the gate ----------

  datatype TagError = BadPackageVersion | TagWithoutV | BadTag | TagMismatch | TooFar(days: nat) | NotContained

  predicate StartsWithV(tag: string) {
    tag != "" && tag[0] == 'v'
  }

  function TagVersion(tag: string): string {
    if StartsWithV(tag) then tag[1..] else tag
  }

  predicate Matches(p: Option<ParsedReleaseVersion>, q: Option<ParsedReleaseTag>) {
    p.Some? && q.Some? && q.value.packageVersion == p.value.version && q.value.channel == p.value.channel
  }

  /** Which problems a list of errors reports, given what the two versions parse to and how
      many days the release is away. */
  ghost predicate Reports(errors: seq<TagError>, p: Option<ParsedReleaseVersion>, q: Option<ParsedReleaseTag>,
                          tag: string, days: nat, uncontained: bool)
  {
    && (BadPackageVersion in errors <==> p.None?)
    && (TagWithoutV in errors <==> !StartsWithV(tag))
    && (BadTag in errors <==> q.None?)
    && (TagMismatch in errors <==> !Matches(p, q))
    && (forall n: nat :: TooFar(n) in errors <==> p.Some? && n == days && n > MAX_CALVER_DISTANCE_DAYS)
    && (NotContained in errors <==> uncontained)
  }

  /** The order in which problems are reported. */
  function Rank(e: TagError): nat {
    match e
    case BadPackageVersion => 0
    case TagWithoutV => 1
    case BadTag => 2
    case TagMismatch => 3
    case TooFar(_) => 4
    case NotContained => 5
  }

  /** Every problem is reported once, in that order. */
  predicate InOrder(errors: seq<TagError>) {
    forall i, j :: 0 <= i < j < |errors| ==> Rank(errors[i]) < Rank(errors[j])
  }

  function DaysAway(p: Option<ParsedReleaseVersion>, now: int): nat {
    if p.Some? then UtcCalendarDayDistance(p.value.date, now) else 0
  }

  method ReportIf(condition: bool, e: TagError, errors: seq<TagError>) returns (next: seq<TagError>)
    requires InOrder(errors) && forall x :: x in errors ==> Rank(x) < Rank(e)
    ensures InOrder(next) && forall x :: x in next ==> Rank(x) <= Rank(e)
    ensures forall x :: x in next <==> x in errors || (condition && x == e)
  {
    next := errors;
    if condition {
      assert forall i :: 0 <= i < |errors| ==> errors[i] in errors;
      next := next + [e];
    }
  }

  method CollectParsedErrors(p: Option<ParsedReleaseVersion>, q: Option<ParsedReleaseTag>,
                             tag: string, days: nat, uncontained: bool) returns (errors: seq<TagError>)
    ensures Reports(errors, p, q, tag, days, uncontained) && InOrder(errors)
  {
    errors := [];
    errors := ReportIf(p.None?, BadPackageVersion, errors);
    errors := ReportIf(!StartsWithV(tag), TagWithoutV, errors);
    errors := ReportIf(q.None?, BadTag, errors);
    errors := ReportIf(!Matches(p, q), TagMismatch, errors);
    errors := ReportIf(p.Some? && days > MAX_CALVER_DISTANCE_DAYS, TooFar(days), errors);
    errors := ReportIf(uncontained, NotContained, errors);
  }

  /** The gate in terms of the texts: the package version is a release, the tag is a `v` and
      a text that names it, the release date is at most two days from now, and the commit is
      not known to be missing from the main ref. */
  ghost predicate PassesGate(packageVersion: string, releaseTag: string, now: int, uncontained: bool) {
    && !uncontained && Trim(releaseTag) != "" && Trim(releaseTag)[0] == 'v'
    && exists y: nat, m: nat, d: nat, beta: Option<nat> :: IsRelease(y, m, d, beta)
         && Trim(packageVersion) == Render(y, m, d, beta)
         && NamesRelease(Trim(Trim(releaseTag)[1..]), y, m, d, beta)
         && UtcCalendarDayDistance(MakeDay(y, m - 1, d) * MS_PER_DAY, now) <= 2
  }

  lemma NoErrorsIff(errors: seq<TagError>, p: Option<ParsedReleaseVersion>, q: Option<ParsedReleaseTag>,
                    tag: string, days: nat, uncontained: bool)
    requires Reports(errors, p, q, tag, days, uncontained)
    ensures errors == [] <==> StartsWithV(tag) && Matches(p, q) && !uncontained && days <= MAX_CALVER_DISTANCE_DAYS
  {
    if errors != [] {
      var e := errors[0];
      assert e in errors;
      match e
      case BadPackageVersion =>
      case TagWithoutV =>
      case BadTag =>
      case TagMismatch =>
      case TooFar(n) => assert TooFar(n) in errors;
      case NotContained =>
    } else {
      assert TooFar(days) !in errors;
    }
  }

  lemma MatchesNamed(packageVersion: string, tagVersion: string, y: nat, m: nat, d: nat, beta: Option<nat>)
    requires IsRelease(y, m, d, beta) && Trim(packageVersion) == Render(y, m, d, beta)
    ensures ParseReleaseVersion(packageVersion) == Some(Parsed(y, m, d, beta))
    ensures Matches(ParseReleaseVersion(packageVersion), ParseReleaseTagVersion(tagVersion))
            <==> NamesRelease(Trim(tagVersion), y, m, d, beta)
  {
    ParsedText(y, m, d, beta);
    TagNamesRelease(tagVersion, y, m, d, beta);
  }

  lemma ReleaseOf(packageVersion: string) returns (y: nat, m: nat, d: nat, beta: Option<nat>)
    requires ParseReleaseVersion(packageVersion).Some?
    ensures IsRelease(y, m, d, beta) && Trim(packageVersion) == Render(y, m, d, beta)
  {
    ParsedIsRelease(Trim(packageVersion));
    var p := ParseReleaseVersion(packageVersion).value;
    y, m, d := p.year, p.month, p.day;
    beta :| IsRelease(p.year, p.month, p.day, beta) && Trim(packageVersion) == Render(p.year, p.month, p.day, beta);
  }

  lemma GateForRelease(packageVersion: string, tag: string, now: int, y: nat, m: nat, d: nat, beta: Option<nat>)
    requires IsRelease(y, m, d, beta) && Trim(packageVersion) == Render(y, m, d, beta)
    ensures var p := ParseReleaseVersion(packageVersion);
            && (Matches(p, ParseReleaseTagVersion(tag)) <==> NamesRelease(Trim(tag), y, m, d, beta))
            && DaysAway(p, now) == UtcCalendarDayDistance(MakeDay(y, m - 1, d) * MS_PER_DAY, now)
  {
    MatchesNamed(packageVersion, tag, y, m, d, beta);
  }

  lemma EmptyPasses(packageVersion: string, releaseTag: string, now: int)
    requires StartsWithV(Trim(releaseTag))
    requires var p := ParseReleaseVersion(packageVersion);
             Matches(p, ParseReleaseTagVersion(TagVersion(Trim(releaseTag))))
               && DaysAway(p, now) <= MAX_CALVER_DISTANCE_DAYS
    ensures PassesGate(packageVersion, releaseTag, now, false)
  {
    var y, m, d, beta := ReleaseOf(packageVersion);
    GateForRelease(packageVersion, TagVersion(Trim(releaseTag)), now, y, m, d, beta);
  }

  lemma PassesEmpty(packageVersion: string, releaseTag: string, now: int)
    requires PassesGate(packageVersion, releaseTag, now, false)
    ensures var p := ParseReleaseVersion(packageVersion);
            Matches(p, ParseReleaseTagVersion(TagVersion(Trim(releaseTag))))
              && DaysAway(p, now) <= MAX_CALVER_DISTANCE_DAYS
  {
    var y: nat, m: nat, d: nat, beta: Option<nat> :| IsRelease(y, m, d, beta)
       && Trim(packageVersion) == Render(y, m, d, beta)
       && NamesRelease(Trim(Trim(releaseTag)[1..]), y, m, d, beta)
       && UtcCalendarDayDistance(MakeDay(y, m - 1, d) * MS_PER_DAY, now) <= 2;
    GateForRelease(packageVersion, TagVersion(Trim(releaseTag)), now, y, m, d, beta);
  }

  /** The gate reports nothing exactly when the texts pass. */
  lemma GateMeaning(packageVersion: string, releaseTag: string, now: int, uncontained: bool, errors: seq<TagError>)
    requires Reports(errors, ParseReleaseVersion(packageVersion), ParseReleaseTagVersion(TagVersion(Trim(releaseTag))),
                     Trim(releaseTag), DaysAway(ParseReleaseVersion(packageVersion), now), uncontained)
    ensures errors == [] <==> PassesGate(packageVersion, releaseTag, now, uncontained)
  {
    var p, q := ParseReleaseVersion(packageVersion), ParseReleaseTagVersion(TagVersion(Trim(releaseTag)));
    NoErrorsIff(errors, p, q, Trim(releaseTag), DaysAway(p, now), uncontained);
    if errors == [] {
      EmptyPasses(packageVersion, releaseTag, now);
    }
    if PassesGate(packageVersion, releaseTag, now, uncontained) {
      PassesEmpty(packageVersion, releaseTag, now);
    }
  }

  /** For an accepted release date the gate's distance is the number of days between the two UTC
      calendar days exactly when the present is outside the years 0 to 99, or half its shift before
      the release. */
  lemma GateDistance(y: nat, m: nat, d: nat, beta: Option<nat>, now: int)
    requires IsRelease(y, m, d, beta)
    ensures var day := MakeDay(y, m - 1, d);
            UtcCalendarDayDistance(day * MS_PER_DAY, now) == Abs(day - Day(now)) <==>
            !(0 <= YearOf(Day(now)) <= 99) || 2 * (day - Day(now)) == CenturyShift(Day(now))
  {
    DayOfDate(y, m - 1, d);
    DistanceFromDay(MakeDay(y, m - 1, d), now);
  }

  /** collectReleaseTagErrors; whether git finds the commit on the main ref is given. */
  method CollectReleaseTagErrors(packageVersion: string, releaseTag: string, now: int,
                                 sha: string, mainRef: string, isContained: bool)
    returns (errors: seq<TagError>)
    ensures var p := ParseReleaseVersion(packageVersion);
            Reports(errors, p, ParseReleaseTagVersion(TagVersion(Trim(releaseTag))), Trim(releaseTag), DaysAway(p, now),
                    Trim(sha) != "" && Trim(mainRef) != "" && !isContained)
    ensures InOrder(errors)
    ensures errors == [] <==>
            PassesGate(packageVersion, releaseTag, now, Trim(sha) != "" && Trim(mainRef) != "" && !isContained)
  {
    var tag, version := Trim(releaseTag), Trim(packageVersion);
    TrimIdempotent(packageVersion);
    var p := ParseReleaseVersion(version);
    assert p == ParseReleaseVersion(packageVersion);
    errors := CollectParsedErrors(p, ParseReleaseTagVersion(TagVersion(tag)), tag, DaysAway(p, now),
                                  Trim(sha) != "" && Trim(mainRef) != "" && !isContained);
    GateMeaning(packageVersion, releaseTag, now, Trim(sha) != "" && Trim(mainRef) != "" && !isContained, errors);
  }
}

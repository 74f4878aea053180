/** The release gate in terms of the texts it is given: which of its problems each of them has
    (scripts/openclaw-npm-release-check.ts:100-160, 211-283). */
module ReleaseProblems {
  import opened Text
  import opened Calendar
  import opened ReleaseCheck

  /** The text is that of the release, up to white space around it. */
  predicate IsTextOf(text: string, y: nat, m: nat, d: nat, beta: Option<nat>) {
    IsRelease(y, m, d, beta) && Trim(text) == Render(y, m, d, beta)
  }

  /** The text is one that a tag of the release may carry behind its `v`. */
  ghost predicate IsTagOf(text: string, y: nat, m: nat, d: nat, beta: Option<nat>) {
    IsRelease(y, m, d, beta) && NamesRelease(Trim(text), y, m, d, beta)
  }

  /** The text is that of some release. */
  ghost predicate IsVersion(text: string) {
    exists y: nat, m: nat, d: nat, beta: Option<nat> :: IsTextOf(text, y, m, d, beta)
  }

  /** The text is one a tag of some release may carry. */
  ghost predicate IsTag(text: string) {
    exists y: nat, m: nat, d: nat, beta: Option<nat> :: IsTagOf(text, y, m, d, beta)
  }

  /** The tag text is one of the release that the package version is. */
  ghost predicate Belongs(packageVersion: string, tag: string) {
    exists y: nat, m: nat, d: nat, beta: Option<nat> ::
      IsTextOf(packageVersion, y, m, d, beta) && IsTagOf(tag, y, m, d, beta)
  }

  /** The release that the package version is lies n days from the present. */
  ghost predicate IsAway(packageVersion: string, now: int, n: nat) {
    exists y: nat, m: nat, d: nat, beta: Option<nat> ::
      IsTextOf(packageVersion, y, m, d, beta)
      && n == UtcCalendarDayDistance(MakeDay(y, m - 1, d) * 86_400_000, now)
  }

  /** The tag without its `v`, or as it is when it has none. */
  function Unprefixed(tag: string): string {
    if tag != "" && tag[0] == 'v' then tag[1..] else tag
  }

  lemma VersionParsesIff(version: string)
    ensures ParseReleaseVersion(version).Some? <==> IsVersion(version)
  {
    if ParseReleaseVersion(version).Some? {
      var y, m, d, beta := ReleaseOf(version);
      assert IsTextOf(version, y, m, d, beta);
    }
    if y: nat, m: nat, d: nat, beta: Option<nat> :| IsTextOf(version, y, m, d, beta) {
      ParsedText(y, m, d, beta);
    }
  }

  lemma CorrectedTag(tag: string) returns (y: nat, m: nat, d: nat)
    requires ParseReleaseTagVersion(tag).Some? && ParseTrimmed(Trim(tag)) == None
    ensures IsTagOf(tag, y, m, d, None)
  {
    var t := Trim(tag);
    TrimIdempotent(tag);
    TrimFixed(t);
    var b := Match(t, CorrectionSuffix).value;
    MatchSound(t, CorrectionSuffix);
    TagByCorrection(t, b);
    var text := b.(rest := "").Text();
    ParsedIsRelease(text);
    var p := ParseTrimmed(text).value;
    var beta :| IsRelease(p.year, p.month, p.day, beta) && p == Parsed(p.year, p.month, p.day, beta);
    y, m, d := p.year, p.month, p.day;
    TagNamesRelease(tag, y, m, d, None);
  }

  /** A tag text parses exactly when it names some release. */
  lemma TagParsesIff(tag: string)
    ensures ParseReleaseTagVersion(tag).Some? <==> IsTag(tag)
  {
    if ParseReleaseTagVersion(tag).Some? {
      if ParseTrimmed(Trim(tag)) == None {
        var y, m, d := CorrectedTag(tag);
        assert IsTagOf(tag, y, m, d, None);
      } else {
        ParsedIsRelease(Trim(tag));
        var p := ParseTrimmed(Trim(tag)).value;
        var beta :| IsRelease(p.year, p.month, p.day, beta) && Trim(tag) == Render(p.year, p.month, p.day, beta);
        assert IsTagOf(tag, p.year, p.month, p.day, beta);
      }
    }
    if y: nat, m: nat, d: nat, beta: Option<nat> :| IsTagOf(tag, y, m, d, beta) {
      TagNamesRelease(tag, y, m, d, beta);
    }
  }

  /** What is read from a tag text: itself, the release, its date, and a correction number exactly
      when there is something behind the release. */
  lemma TagFields(tag: string, y: nat, m: nat, d: nat, beta: Option<nat>)
    requires IsTagOf(tag, y, m, d, beta)
    ensures var q := ParseReleaseTagVersion(tag);
            && q.Some? && q.value.version == Trim(tag) && q.value.packageVersion == Render(y, m, d, beta)
            && q.value.channel == (if beta.Some? then Beta else Stable)
            && q.value.date == MakeDay(y, m - 1, d) * 86_400_000
            && (q.value.correctionNumber.None? <==> Trim(tag) == Render(y, m, d, beta))
  {
    var t := Trim(tag);
    TrimIdempotent(tag);
    if t == Render(y, m, d, beta) {
      ParsedText(y, m, d, beta);
    } else {
      var n :| 1 <= n && !Overflows(n) && t == Render(y, m, d, None) + "-" + Dec(n);
      CorrectionParses(y, m, d, n);
    }
  }

  lemma MatchesIff(packageVersion: string, tag: string)
    ensures Matches(ParseReleaseVersion(packageVersion), ParseReleaseTagVersion(tag)) <==> Belongs(packageVersion, tag)
  {
    if Matches(ParseReleaseVersion(packageVersion), ParseReleaseTagVersion(tag)) {
      var y, m, d, beta := ReleaseOf(packageVersion);
      MatchesNamed(packageVersion, tag, y, m, d, beta);
      assert IsTextOf(packageVersion, y, m, d, beta) && IsTagOf(tag, y, m, d, beta);
    }
    if y: nat, m: nat, d: nat, beta: Option<nat> :|
      IsTextOf(packageVersion, y, m, d, beta) && IsTagOf(tag, y, m, d, beta)
    {
      MatchesNamed(packageVersion, tag, y, m, d, beta);
    }
  }

  lemma DaysAwayIff(packageVersion: string, now: int, n: nat)
    ensures var p := ParseReleaseVersion(packageVersion);
            p.Some? && n == DaysAway(p, now) <==> IsAway(packageVersion, now, n)
  {
    if ParseReleaseVersion(packageVersion).Some? {
      var y, m, d, beta := ReleaseOf(packageVersion);
      MatchesNamed(packageVersion, "", y, m, d, beta);
      assert IsTextOf(packageVersion, y, m, d, beta);
    }
    forall y: nat, m: nat, d: nat, beta: Option<nat> | IsTextOf(packageVersion, y, m, d, beta)
      ensures ParseReleaseVersion(packageVersion) == Some(Parsed(y, m, d, beta))
    {
      MatchesNamed(packageVersion, "", y, m, d, beta);
    }
  }

  /** Which problems are reported: a package version that is no release, a tag without its `v`, a tag
      text that names no release or not that of the package version, a release more than two days
      away, with how many, and a commit that is missing from the main ref. */
  lemma ProblemsAre(packageVersion: string, releaseTag: string, now: int, uncontained: bool, errors: seq<TagError>)
    requires Reports(errors, ParseReleaseVersion(packageVersion), ParseReleaseTagVersion(TagVersion(Trim(releaseTag))),
                     Trim(releaseTag), DaysAway(ParseReleaseVersion(packageVersion), now), uncontained)
    ensures BadPackageVersion in errors <==> !IsVersion(packageVersion)
    ensures TagWithoutV in errors <==> Trim(releaseTag) == "" || Trim(releaseTag)[0] != 'v'
    ensures BadTag in errors <==> !IsTag(Unprefixed(Trim(releaseTag)))
    ensures TagMismatch in errors <==> !Belongs(packageVersion, Unprefixed(Trim(releaseTag)))
    ensures forall n: nat :: TooFar(n) in errors <==> n > 2 && IsAway(packageVersion, now, n)
    ensures NotContained in errors <==> uncontained
  {
    var tag := Trim(releaseTag);
    assert TagVersion(tag) == Unprefixed(tag);
    VersionParsesIff(packageVersion);
    TagParsesIff(Unprefixed(tag));
    MatchesIff(packageVersion, Unprefixed(tag));
    forall n: nat ensures TooFar(n) in errors <==> n > 2 && IsAway(packageVersion, now, n) {
      DaysAwayIff(packageVersion, now, n);
    }
  }
}

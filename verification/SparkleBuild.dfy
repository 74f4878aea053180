/** Sparkle build numbers of CalVer versions (scripts/sparkle-build.ts:12-57). */
module SparkleBuild {
  import opened Text

  datatype Floors = Floors(dateKey: nat, legacyFloor: nat, laneFloor: nat, lane: nat)

  // ---------- the grammar ----------

  /** What `.` does not match in a regular expression. */
  predicate IsLineEnd(c: char) {
    c == '\n' || c == '\r' || c as int == 0x2028 || c as int == 0x2029
  }

  /** `[0-9]{1,2}` */
  predicate IsPair(s: string) {
    1 <= |s| <= 2 && AllDigits(s)
  }

  /** `([.-].*)?` */
  predicate IsSuffix(s: string) {
    s != "" ==> (s[0] == '.' || s[0] == '-') && forall i :: 0 <= i < |s| ==> !IsLineEnd(s[i])
  }

  /** The groups of CALVER_REGEX. */
  datatype Calver = Calver(year: string, month: string, day: string, suffix: string) {
    predicate Valid() {
      |year| == 4 && AllDigits(year) && IsPair(month) && IsPair(day) && IsSuffix(suffix)
    }

    function Text(): string {
      year + "." + month + "." + day + suffix
    }
  }

  /** The number of digits at a position, at most two. */
  function PairLength(t: string, i: nat): nat {
    if i + 1 < |t| && IsDigit(t[i + 1]) then 2 else 1
  }

  /** The match of CALVER_REGEX against the whole of t. */
  function Match(t: string): Option<Calver> {
    if |t| < 5 || t[4] != '.' then None
    else
      var m := 5 + PairLength(t, 5);
      if |t| <= m || t[m] != '.' then None
      else
        var d := m + 1 + PairLength(t, m + 1);
        if |t| < d then None
        else
          var c := Calver(t[..4], t[5..m], t[m + 1..d], t[d..]);
          if c.Valid() then Some(c) else None
  }

  lemma MatchSound(t: string)
    ensures Match(t).Some? ==> Match(t).value.Valid() && Match(t).value.Text() == t
  {
  }

  lemma MatchFinds(c: Calver)
    requires c.Valid()
    ensures Match(c.Text()) == Some(c)
  {
    var t, m := c.Text(), 5 + |c.month|;
    assert t[..4] == c.year && t[4] == '.' && t[5..m] == c.month && t[m] == '.';
    assert |c.month| == 2 ==> t[6] == c.month[1];
    var d := m + 1 + |c.day|;
    assert t[m + 1..d] == c.day && t[d..] == c.suffix;
    assert |c.day| == 2 ==> t[m + 2] == c.day[1];
    assert c.suffix != "" ==> t[d] == c.suffix[0];
  }

  /** A text has at most one reading, and the matcher finds it. */
  lemma MatchIff(t: string, c: Calver)
    ensures Match(t) == Some(c) <==> c.Valid() && c.Text() == t
  {
    MatchSound(t);
    if c.Valid() {
      MatchFinds(c);
    }
  }

  // ---------- the floors ----------

  /** The longest run of digits at the end: the match of `([0-9]+)$`, if it is not empty. */
  function TrailingDigits(s: string): (r: string)
    ensures AllDigits(r) && |r| <= |s| && s[|s| - |r|..] == r
    ensures |r| == |s| || !IsDigit(s[|s| - |r| - 1])
  {
    if s != "" && IsDigit(s[|s| - 1]) then TrailingDigits(s[..|s| - 1]) + [s[|s| - 1]] else ""
  }

  /** `Math.min(number, 89)`. */
  function CappedLane(number: Double): nat {
    match number
    case Finite(n) => if n < 89 then n else 89
    case Infinity => 89
  }

  function Lane(suffix: string): nat {
    if suffix == "" then 90
    else if TrailingDigits(suffix) == "" then 1
    else CappedLane(ToDouble(Val(TrailingDigits(suffix))))
  }

  /** The three numbers written next to each other and read back (they stay below 2^53). */
  function FloorsOf(year: nat, month: nat, day: nat, lane: nat): Floors {
    var dateKey := Val(Dec(year) + (Pad2(month) + Pad2(day)));
    Floors(dateKey, Val(Dec(dateKey) + "0"), Val(Dec(dateKey) + Pad2(lane)), lane)
  }

  /** sparkleBuildFloorsFromShortVersion. */
  function SparkleBuildFloors(shortVersion: string): Option<Floors> {
    match Match(Trim(shortVersion))
    case None => None
    case Some(c) =>
      var year, month, day := Val(c.year), Val(c.month), Val(c.day);
      if month < 1 || month > 12 || day < 1 || day > 31 then None
      else Some(FloorsOf(year, month, day, Lane(c.suffix)))
  }

  // ---------- what the floors mean ----------

  /** A version as its numbers; lane 90 stands for no suffix. */
  datatype Release = Release(year: nat, month: nat, day: nat, lane: nat) {
    predicate Valid() {
      year < 10000 && 1 <= month <= 12 && 1 <= day <= 31 && lane <= 90
    }

    function DateKey(): nat {
      10000 * year + 100 * month + day
    }

    /** The lexicographic order. */
    predicate Before(other: Release) {
      || year < other.year
      || (year == other.year && month < other.month)
      || (year == other.year && month == other.month && day < other.day)
      || (year == other.year && month == other.month && day == other.day && lane < other.lane)
    }
  }

  function ReleaseOf(c: Calver): Release
    requires c.Valid()
  {
    Release(Val(c.year), Val(c.month), Val(c.day), Lane(c.suffix))
  }

  lemma HundredPower(s: string)
    requires |s| == 2
    ensures Pow10(|s|) == 100
  {
  }

  lemma AppendDigits(n: nat, s: string)
    requires |s| == 2 && AllDigits(s)
    ensures Val(Dec(n) + s) == 100 * n + Val(s)
  {
    ValConcat(Dec(n), s);
    ValDec(n);
    HundredPower(s);
  }

  lemma AppendZero(n: nat)
    ensures Val(Dec(n) + "0") == 10 * n
  {
    assert (Dec(n) + "0")[..|Dec(n)|] == Dec(n);
    ValDec(n);
  }

  lemma DateKeyMeaning(year: nat, month: nat, day: nat)
    requires month < 100 && day < 100
    ensures Val(Dec(year) + (Pad2(month) + Pad2(day))) == 10000 * year + 100 * month + day
  {
    Pad2Meaning(month);
    Pad2Meaning(day);
    AppendDigits(year, Pad2(month));
    var s := Dec(year) + Pad2(month);
    assert Dec(year) + (Pad2(month) + Pad2(day)) == s + Pad2(day);
    ValConcat(s, Pad2(day));
    HundredPower(Pad2(day));
  }

  /** The floors as numbers. */
  function Numbers(r: Release): Floors {
    Floors(r.DateKey(), 10 * r.DateKey(), 100 * r.DateKey() + r.lane, r.lane)
  }

  /** Writing the numbers next to each other is arithmetic in base ten. */
  lemma FloorsMeaning(r: Release)
    requires r.Valid()
    ensures FloorsOf(r.year, r.month, r.day, r.lane) == Numbers(r) && Numbers(r).laneFloor < EXACT_LIMIT
  {
    DateKeyMeaning(r.year, r.month, r.day);
    AppendZero(r.DateKey());
    Pad2Meaning(r.lane);
    AppendDigits(r.DateKey(), Pad2(r.lane));
  }

  lemma LaneMeaning(suffix: string)
    ensures suffix == "" ==> Lane(suffix) == 90
    ensures suffix != "" && TrailingDigits(suffix) == "" ==> Lane(suffix) == 1
    ensures suffix != "" && TrailingDigits(suffix) != "" ==>
              var n := Val(TrailingDigits(suffix)); Lane(suffix) == if n < 89 then n else 89
  {
    if suffix != "" && TrailingDigits(suffix) != "" {
      var n := Val(TrailingDigits(suffix));
      ToDoubleKeepsOrder(n, 89);
      if n < 89 {
        ToDoubleExact(n);
      }
    }
  }

  lemma {:induction false} MoreDigits(a: string, b: string)
    requires AllDigits(a) && AllDigits(b)
    ensures AllDigits(a + b) && Val(a + b) >= Val(a)
  {
    if b == "" {
      assert a + b == a;
    } else {
      var init := b[..|b| - 1];
      MoreDigits(a, init);
      assert (a + b)[..|a + b| - 1] == a + init;
    }
  }

  /** `parseInt` may read digits after the twentieth as zeros; that leaves the lane alone, as any
      number that agrees in its first digits and is at least 89 by them alone has the same lane. */
  lemma LaterDigitsDoNotMatter(digits: string, read: string, n: nat)
    requires AllDigits(digits) && AllDigits(read) && n <= |digits| == |read| && digits[..n] == read[..n]
    requires Val(digits[..n]) >= 89
    ensures CappedLane(ToDouble(Val(digits))) == CappedLane(ToDouble(Val(read))) == 89
  {
    MoreDigits(digits[..n], digits[n..]);
    MoreDigits(read[..n], read[n..]);
    assert digits == digits[..n] + digits[n..] && read == read[..n] + read[n..];
    ToDoubleKeepsOrder(Val(digits), 89);
    ToDoubleKeepsOrder(Val(read), 89);
  }

  lemma TenThousand(s: string)
    requires |s| == 4
    ensures Pow10(|s|) == 10000
  {
  }

  lemma ReleaseInRange(c: Calver)
    requires c.Valid()
    ensures ReleaseOf(c).year < 10000 && ReleaseOf(c).lane <= 90
    ensures ReleaseOf(c).lane == 90 <==> c.suffix == ""
  {
    ValBound(c.year);
    LaneMeaning(c.suffix);
    TenThousand(c.year);
  }

  predicate Reads(t: string, c: Calver) {
    c.Valid() && c.Text() == t && ReleaseOf(c).Valid()
  }

  lemma FloorsOfMatch(t: string, c: Calver)
    requires c.Valid() && c.Text() == Trim(t)
    ensures SparkleBuildFloors(t) == if ReleaseOf(c).Valid() then Some(Numbers(ReleaseOf(c))) else None
  {
    MatchIff(Trim(t), c);
    ReleaseInRange(c);
    if ReleaseOf(c).Valid() {
      FloorsMeaning(ReleaseOf(c));
    }
  }

  /** Which short versions have floors, and which: exactly the trimmed texts of a CalVer version
      whose month and day are in range, and the floors are those of its numbers. */
  lemma FloorsIff(shortVersion: string, f: Floors)
    ensures SparkleBuildFloors(shortVersion) == Some(f)
            <==> exists c: Calver :: Reads(Trim(shortVersion), c) && f == Numbers(ReleaseOf(c))
  {
    var t := Trim(shortVersion);
    if SparkleBuildFloors(shortVersion) == Some(f) {
      var c := Match(t).value;
      MatchIff(t, c);
      FloorsOfMatch(shortVersion, c);
      assert Reads(t, c);
    }
    forall c: Calver | Reads(t, c) ensures SparkleBuildFloors(shortVersion) == Some(Numbers(ReleaseOf(c))) {
      FloorsOfMatch(shortVersion, c);
    }
  }

  /** The lane floor orders versions by date and then by lane, and tells them apart. */
  lemma LaneFloorEmbedsOrder(a: Release, b: Release)
    requires a.Valid() && b.Valid()
    ensures var fa, fb := FloorsOf(a.year, a.month, a.day, a.lane), FloorsOf(b.year, b.month, b.day, b.lane);
            && (fa.laneFloor < fb.laneFloor <==> a.Before(b))
            && (fa.laneFloor == fb.laneFloor <==> a == b)
            && (fa.dateKey < fb.dateKey <==> a.(lane := 0).Before(b.(lane := 0)))
  {
    FloorsMeaning(a);
    FloorsMeaning(b);
  }

  /** The lane floor is a ten digit number from the year 1000 on, and the legacy floor
      always has fewer. */
  lemma LaneFloorSize(r: Release)
    requires r.Valid()
    ensures FloorsOf(r.year, r.month, r.day, r.lane).laneFloor >= 1_000_000_000 <==> r.year >= 1000
    ensures FloorsOf(r.year, r.month, r.day, r.lane).legacyFloor < 1_000_000_000
  {
    FloorsMeaning(r);
  }
}

/** The feed check in plain numbers: what an item has to say, and what is reported of it
    (scripts/release-check.ts:141-198, scripts/sparkle-build.ts:12-57). */
module AppcastMeaning {
  import opened Text
  import opened Sequences
  import opened SparkleBuild
  import opened Appcast

  // ---------- one item ----------

  /** The item has a build number: digits and nothing else. */
  predicate HasBuild(item: Item) {
    item.version.Some? && item.version.value != "" && forall i :: 0 <= i < |item.version.value| ==>
                                                         '0' <= item.version.value[i] <= '9'
  }

  function Build(item: Item): nat
    requires HasBuild(item)
  {
    Val(item.version.value)
  }

  function Name(item: Item): string {
    if item.title.None? then "unknown" else item.title.value
  }

  /** The item's short version is a CalVer version of the release. */
  ghost predicate IsOf(item: Item, r: Release) {
    item.shortVersion.Some? && exists c :: Reads(Trim(item.shortVersion.value), c) && ReleaseOf(c) == r
  }

  /** A text of four digits for the year, one or two each for month and day, and nothing or something
      behind a dot or a hyphen in the same line, is a CalVer version of its numbers, and nothing else
      is one. */
  lemma VersionText(t: string, year: string, month: string, day: string, suffix: string)
    ensures Reads(t, Calver(year, month, day, suffix)) <==>
            && t == year + "." + month + "." + day + suffix
            && |year| == 4 && 1 <= |month| <= 2 && 1 <= |day| <= 2
            && AllDigits(year) && AllDigits(month) && AllDigits(day)
            && 1 <= Val(month) <= 12 && 1 <= Val(day) <= 31
            && (suffix != "" ==> suffix[0] == '-' || suffix[0] == '.')
            && forall i :: 0 <= i < |suffix| ==>
                 suffix[i] != '\n' && suffix[i] != '\r' && suffix[i] as int != 0x2028 && suffix[i] as int != 0x2029
    ensures var c := Calver(year, month, day, suffix);
            Reads(t, c) ==> ReleaseOf(c) == Release(Val(year), Val(month), Val(day), Lane(suffix))
  {
    var c := Calver(year, month, day, suffix);
    if c.Valid() {
      ReleaseInRange(c);
    }
  }

  lemma ReadFloors(text: string, c: Calver)
    requires Reads(Trim(text), c)
    ensures text != "" && ReleaseOf(c).Valid() && SparkleBuildFloors(text) == Some(Numbers(ReleaseOf(c)))
  {
    ReadableIsNotBlank(text, c);
    FloorsOfMatch(text, c);
  }

  /** The item has the floors of its numbers. */
  lemma FloorsAre(item: Item, r: Release)
    requires IsOf(item, r)
    ensures item.shortVersion.value != "" && r.Valid()
    ensures SparkleBuildFloors(item.shortVersion.value) == Some(Numbers(r))
  {
    var c :| Reads(Trim(item.shortVersion.value), c) && ReleaseOf(c) == r;
    ReadFloors(item.shortVersion.value, c);
  }

  /** An item has the lane floor when its build has ten digits or more, or its date is on or after
      the adoption date. */
  predicate IsInLanes(item: Item, r: Release, adoption: nat)
    requires HasBuild(item)
  {
    Build(item) >= 1_000_000_000 || r.DateKey() >= adoption
  }

  /** The least build an item may have: date and lane, or date and a zero. */
  function LeastBuild(item: Item, r: Release, adoption: nat): nat
    requires HasBuild(item)
  {
    if IsInLanes(item, r, adoption) then 100 * r.DateKey() + r.lane else 10 * r.DateKey()
  }

  /** The adoption date: 27 February 2026, or the date of the earliest item before that whose build
      has ten digits or more. */
  ghost predicate IsAdoption(items: seq<Item>, date: nat) {
    && date <= 20260227
    && (forall item, r :: item in items && HasBuild(item) && IsOf(item, r) && Build(item) >= 1_000_000_000 ==>
          date <= r.DateKey())
    && (date == 20260227 ||
        exists item, r :: item in items && HasBuild(item) && IsOf(item, r) && Build(item) >= 1_000_000_000
                          && date == r.DateKey())
  }

  // ---------- the collected items ----------

  function Collected(item: Item, r: Release): CalverItem
    requires HasBuild(item)
  {
    CalverItem(Name(item), ToDouble(Build(item)), Numbers(r))
  }

  lemma HasBuildIff(item: Item)
    ensures ItemError(item).None? <==> HasBuild(item)
  {
  }

  lemma GoodItem(item: Item, floors: Floors)
    requires ItemError(item).None? && item.version.Some? && AllDigits(item.version.value)
    requires item.shortVersion.Some? && item.shortVersion.value != ""
    requires SparkleBuildFloors(item.shortVersion.value) == Some(floors)
    ensures CalverOf(item) == Some(CalverItem(Name(item), ToDouble(Val(item.version.value)), floors))
  {
  }

  lemma IsCollected(item: Item, r: Release)
    requires HasBuild(item) && IsOf(item, r)
    ensures CalverOf(item) == Some(Collected(item, r))
  {
    FloorsAre(item, r);
    HasBuildIff(item);
    GoodItem(item, Collected(item, r).floors);
  }

  lemma ReadableFloors(text: string) returns (c: Calver)
    requires SparkleBuildFloors(text).Some?
    ensures Reads(Trim(text), c) && SparkleBuildFloors(text) == Some(Numbers(ReleaseOf(c)))
  {
    FloorsIff(text, SparkleBuildFloors(text).value);
    c :| Reads(Trim(text), c) && SparkleBuildFloors(text).value == Numbers(ReleaseOf(c));
  }

  lemma ReleaseOfItem(item: Item, c: CalverItem) returns (r: Release)
    requires CalverOf(item) == Some(c)
    ensures HasBuild(item) && IsOf(item, r) && c == Collected(item, r)
  {
    HasBuildIff(item);
    var v := ReadableFloors(item.shortVersion.value);
    r := ReleaseOf(v);
    assert IsOf(item, r);
    IsCollected(item, r);
  }

  lemma CalverOfIs(item: Item, c: CalverItem)
    ensures CalverOf(item) == Some(c) <==>
            HasBuild(item) && exists r :: IsOf(item, r) && c == Collected(item, r)
  {
    if CalverOf(item) == Some(c) {
      var r := ReleaseOfItem(item, c);
    }
    if HasBuild(item) {
      if r :| IsOf(item, r) && c == Collected(item, r) {
        IsCollected(item, r);
      }
    }
  }

  lemma CollectedIff(items: seq<Item>, c: CalverItem)
    ensures c in CalverItems(items) <==>
            exists item, r :: item in items && HasBuild(item) && IsOf(item, r) && c == Collected(item, r)
  {
    FilterMapMeaning(items, CalverOf);
    if c in CalverItems(items) {
      var item :| item in items && CalverOf(item) == Some(c);
      CalverOfIs(item, c);
    }
    if item, r :| item in items && HasBuild(item) && IsOf(item, r) && c == Collected(item, r) {
      CalverOfIs(item, c);
    }
  }

  lemma LeastIsSmall(item: Item, r: Release, adoption: nat)
    requires HasBuild(item) && IsOf(item, r)
    ensures LeastBuild(item, r, adoption) <= EXACT_LIMIT / 2
  {
    FloorsAre(item, r);
  }

  lemma LaneBuildIff(item: Item, r: Release)
    requires HasBuild(item)
    ensures IsLaneBuild(Collected(item, r)) <==> Build(item) >= 1_000_000_000
  {
    ToDoubleKeepsOrder(Build(item), 1_000_000_000);
  }

  lemma AdoptionIs(items: seq<Item>, date: nat)
    requires IsAdoption(items, date)
    ensures EffectiveAdoptionDate(CalverItems(items)) == date
  {
    var calver := CalverItems(items);
    AdoptionDateIs(calver);
    forall c | c in calver && IsLaneBuild(c) ensures date <= c.floors.dateKey {
      CollectedIff(items, c);
      var item, r :| item in items && HasBuild(item) && IsOf(item, r) && c == Collected(item, r);
      LaneBuildIff(item, r);
    }
    if date != 20260227 {
      var item, r :| item in items && HasBuild(item) && IsOf(item, r) && Build(item) >= 1_000_000_000
                     && date == r.DateKey();
      CollectedIff(items, Collected(item, r));
      LaneBuildIff(item, r);
    }
  }

  /** There is always an adoption date. */
  lemma AdoptionExists(items: seq<Item>)
    ensures IsAdoption(items, EffectiveAdoptionDate(CalverItems(items)))
  {
    var calver, date := CalverItems(items), EffectiveAdoptionDate(CalverItems(items));
    AdoptionDateIs(calver);
    forall item, r | item in items && HasBuild(item) && IsOf(item, r) && Build(item) >= 1_000_000_000
      ensures date <= r.DateKey()
    {
      CollectedIff(items, Collected(item, r));
      LaneBuildIff(item, r);
    }
    if date != 20260227 {
      var c :| c in calver && IsLaneBuild(c) && c.floors.dateKey == date;
      CollectedIff(items, c);
      var item, r :| item in items && HasBuild(item) && IsOf(item, r) && c == Collected(item, r);
      LaneBuildIff(item, r);
    }
  }

  lemma FloorIs(item: Item, r: Release, adoption: nat)
    requires HasBuild(item)
    ensures Floor(Collected(item, r), adoption) == LeastBuild(item, r, adoption)
    ensures ExpectsLaneFloor(Collected(item, r), adoption) <==> IsInLanes(item, r, adoption)
  {
    LaneBuildIff(item, r);
  }

  lemma FloorErrorIs(item: Item, r: Release, adoption: nat)
    requires HasBuild(item) && IsOf(item, r)
    ensures FloorError(Collected(item, r), adoption)
            == if Build(item) >= LeastBuild(item, r, adoption) then None
               else Some(BelowFloor(Name(item), ToDouble(Build(item)), IsInLanes(item, r, adoption),
                                    LeastBuild(item, r, adoption)))
  {
    FloorIs(item, r, adoption);
    LeastIsSmall(item, r, adoption);
    ToDoubleKeepsOrder(Build(item), LeastBuild(item, r, adoption));
  }

  // ---------- the whole feed ----------

  /** The item's build is less than the least, and e says so. */
  ghost predicate IsBelowFloor(items: seq<Item>, item: Item, r: Release, adoption: nat, e: Error) {
    && item in items && HasBuild(item) && IsOf(item, r) && Build(item) < LeastBuild(item, r, adoption)
    && e == BelowFloor(Name(item), ToDouble(Build(item)), IsInLanes(item, r, adoption), LeastBuild(item, r, adoption))
  }

  lemma BelowFloorItem(items: seq<Item>, adoption: nat, c: CalverItem, e: Error) returns (item: Item, r: Release)
    requires c in CalverItems(items) && FloorError(c, adoption) == Some(e)
    ensures IsBelowFloor(items, item, r, adoption, e)
  {
    CollectedIff(items, c);
    item, r :| item in items && HasBuild(item) && IsOf(item, r) && c == Collected(item, r);
    FloorErrorIs(item, r, adoption);
  }

  lemma BelowFloorIsFound(items: seq<Item>, item: Item, r: Release, adoption: nat, e: Error)
    requires IsBelowFloor(items, item, r, adoption, e)
    ensures Collected(item, r) in CalverItems(items) && FloorError(Collected(item, r), adoption) == Some(e)
  {
    CollectedIff(items, Collected(item, r));
    FloorErrorIs(item, r, adoption);
  }

  lemma BelowFloorIff(items: seq<Item>, adoption: nat, e: Error)
    requires IsAdoption(items, adoption)
    ensures e in FilterMap(CalverItems(items), FloorErrorFrom(adoption)) <==>
            exists item, r :: IsBelowFloor(items, item, r, adoption, e)
  {
    FilterMapMeaning(CalverItems(items), FloorErrorFrom(adoption));
    if e in FilterMap(CalverItems(items), FloorErrorFrom(adoption)) {
      var c :| c in CalverItems(items) && FloorErrorFrom(adoption)(c) == Some(e);
      var item, r := BelowFloorItem(items, adoption, c, e);
    }
    if item, r :| IsBelowFloor(items, item, r, adoption, e) {
      BelowFloorIsFound(items, item, r, adoption, e);
    }
  }

  lemma ItemErrorIff(items: seq<Item>, e: Error)
    ensures e in FilterMap(items, ItemError) <==>
            exists item :: item in items && !HasBuild(item)
                           && e == if item.version.None? || item.version.value == "" then MissingVersion(Name(item))
                                   else NonNumericVersion(Name(item), item.version.value)
  {
    FilterMapMeaning(items, ItemError);
    forall item ensures ItemError(item).None? <==> HasBuild(item) {
      HasBuildIff(item);
    }
  }

  /** What is reported of a feed: that it is empty, items without a build number or with one that is
      none, and CalVer items whose build is less than the least. */
  lemma ErrorsAre(items: seq<Item>, adoption: nat, e: Error)
    requires IsAdoption(items, adoption)
    ensures e in Errors(items) <==>
            || (e == NoItems && items == [])
            || (exists item :: item in items && !HasBuild(item)
                               && e == if item.version.None? || item.version.value == "" then MissingVersion(Name(item))
                                       else NonNumericVersion(Name(item), item.version.value))
            || (exists item, r :: IsBelowFloor(items, item, r, adoption, e))
  {
    AdoptionIs(items, adoption);
    ItemErrorIff(items, e);
    BelowFloorIff(items, adoption, e);
  }

  /** A feed is accepted exactly when it has items, every item has a build number, and that of a CalVer
      item is at least the least it may be. */
  lemma AcceptedInNumbers(items: seq<Item>, adoption: nat)
    requires IsAdoption(items, adoption)
    ensures Errors(items) == [] <==>
            && items != []
            && (forall item :: item in items ==> HasBuild(item))
            && (forall item, r :: item in items && HasBuild(item) && IsOf(item, r) ==>
                  Build(item) >= LeastBuild(item, r, adoption))
  {
    var errors := Errors(items);
    if errors != [] {
      var e := errors[0];
      ErrorsAre(items, adoption, e);
    }
    if items == [] {
      ErrorsAre(items, adoption, NoItems);
    }
    forall item | item in items && !HasBuild(item) ensures errors != [] {
      var e := if item.version.None? || item.version.value == "" then MissingVersion(Name(item))
               else NonNumericVersion(Name(item), item.version.value);
      ErrorsAre(items, adoption, e);
    }
    forall item, r | item in items && HasBuild(item) && IsOf(item, r) && Build(item) < LeastBuild(item, r, adoption)
      ensures errors != []
    {
      var e := BelowFloor(Name(item), ToDouble(Build(item)), IsInLanes(item, r, adoption),
                          LeastBuild(item, r, adoption));
      assert IsBelowFloor(items, item, r, adoption, e);
      ErrorsAre(items, adoption, e);
    }
  }
}

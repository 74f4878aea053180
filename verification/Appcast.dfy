/** The check of Sparkle build numbers in an appcast feed, from the extracted tags of its items
    onward (scripts/release-check.ts:34-35, 141-198). */
module Appcast {
  import opened Text
  import opened Sequences
  import opened SparkleBuild

  const LANE_BUILD_MIN: nat := 1_000_000_000
  const LANE_FLOOR_ADOPTION_DATE_KEY: nat := 20260227

  /** The trimmed contents of the tags of an `<item>`; None for a tag that is missing. */
  datatype Item = Item(title: Option<string>, shortVersion: Option<string>, version: Option<string>)

  datatype CalverItem = CalverItem(title: string, build: Double, floors: Floors)

  datatype Error =
    | NoItems
    | MissingVersion(title: string)
    | NonNumericVersion(title: string, version: string)
    | BelowFloor(title: string, build: Double, laneFloor: bool, floor: nat)

  function Title(item: Item): string {
    if item.title.Some? then item.title.value else "unknown"
  }

  /** `^[0-9]+$` */
  predicate IsNumeral(s: string) {
    s != "" && AllDigits(s)
  }

  /** What is wrong with an item on its own. */
  function ItemError(item: Item): Option<Error> {
    if item.version.None? || item.version.value == "" then Some(MissingVersion(Title(item)))
    else if !IsNumeral(item.version.value) then Some(NonNumericVersion(Title(item), item.version.value))
    else None
  }

  /** The items whose short version is a CalVer version. */
  function CalverOf(item: Item): Option<CalverItem> {
    if ItemError(item).Some? || item.shortVersion.None? || item.shortVersion.value == "" then None
    else
      match SparkleBuildFloors(item.shortVersion.value)
      case None => None
      case Some(floors) => Some(CalverItem(Title(item), ToDouble(Val(item.version.value)), floors))
  }

  predicate IsLaneBuild(item: CalverItem) {
    item.build.AtLeast(LANE_BUILD_MIN)
  }

  /** The smallest date of a lane build, and the built-in adoption date if there is none or it is
      later. */
  function EffectiveAdoptionDate(items: seq<CalverItem>): nat {
    if items == [] then LANE_FLOOR_ADOPTION_DATE_KEY
    else
      var rest := EffectiveAdoptionDate(items[1..]);
      if IsLaneBuild(items[0]) && items[0].floors.dateKey < rest then items[0].floors.dateKey else rest
  }

  predicate ExpectsLaneFloor(item: CalverItem, adoption: nat) {
    IsLaneBuild(item) || item.floors.dateKey >= adoption
  }

  function Floor(item: CalverItem, adoption: nat): nat {
    if ExpectsLaneFloor(item, adoption) then item.floors.laneFloor else item.floors.legacyFloor
  }

  function FloorError(item: CalverItem, adoption: nat): Option<Error> {
    if item.build.AtLeast(Floor(item, adoption)) then None
    else Some(BelowFloor(item.title, item.build, ExpectsLaneFloor(item, adoption), Floor(item, adoption)))
  }

  function FloorErrorFrom(adoption: nat): CalverItem -> Option<Error> {
    c => FloorError(c, adoption)
  }

  function CalverItems(items: seq<Item>): seq<CalverItem> {
    FilterMap(items, CalverOf)
  }

  /** All errors of a feed. */
  function Errors(items: seq<Item>): seq<Error> {
    var adoption := EffectiveAdoptionDate(CalverItems(items));
    (if items == [] then [NoItems] else []) + FilterMap(items, ItemError)
    + FilterMap(CalverItems(items), FloorErrorFrom(adoption))
  }

  // ---------- the loops ----------

  /** The first loop: the items that are wrong on their own, and the CalVer items. */
  method CollectItems(items: seq<Item>) returns (errors: seq<Error>, calverItems: seq<CalverItem>)
    ensures errors == (if items == [] then [NoItems] else []) + FilterMap(items, ItemError)
    ensures calverItems == CalverItems(items)
  {
    errors, calverItems := if items == [] then [NoItems] else [], [];
    ghost var first := errors;
    for i := 0 to |items|
      invariant errors == first + FilterMap(items[..i], ItemError)
      invariant calverItems == CalverItems(items[..i])
    {
      assert items[..i + 1] == items[..i] + [items[i]];
      FilterMapPush(items[..i], items[i], ItemError);
      FilterMapPush(items[..i], items[i], CalverOf);
      var error := ItemError(items[i]);
      if error.Some? {
        errors := errors + [error.value];
        continue;
      }
      var calver := CalverOf(items[i]);
      if calver.None? {
        continue;
      }
      calverItems := calverItems + [calver.value];
    }
    assert items[..|items|] == items;
  }

  /** The second loop: the CalVer items below their floor. */
  method CollectFloorErrors(calverItems: seq<CalverItem>, adoption: nat) returns (errors: seq<Error>)
    ensures errors == FilterMap(calverItems, FloorErrorFrom(adoption))
  {
    errors := [];
    for i := 0 to |calverItems|
      invariant errors == FilterMap(calverItems[..i], FloorErrorFrom(adoption))
    {
      assert calverItems[..i + 1] == calverItems[..i] + [calverItems[i]];
      FilterMapPush(calverItems[..i], calverItems[i], FloorErrorFrom(adoption));
      var error := FloorError(calverItems[i], adoption);
      if error.Some? {
        errors := errors + [error.value];
      }
    }
    assert calverItems[..|calverItems|] == calverItems;
  }

  /** collectAppcastSparkleVersionErrors, from the extracted items onward. */
  method CollectAppcastSparkleVersionErrors(items: seq<Item>) returns (errors: seq<Error>)
    ensures errors == Errors(items)
  {
    var calverItems;
    errors, calverItems := CollectItems(items);
    var floorErrors := CollectFloorErrors(calverItems, EffectiveAdoptionDate(calverItems));
    errors := errors + floorErrors;
  }

  // ---------- the order of the items ----------

  predicate IsAdoptionDate(items: seq<CalverItem>, date: nat) {
    && date <= LANE_FLOOR_ADOPTION_DATE_KEY
    && (forall c :: c in items && IsLaneBuild(c) ==> date <= c.floors.dateKey)
    && (date == LANE_FLOOR_ADOPTION_DATE_KEY || exists c :: c in items && IsLaneBuild(c) && c.floors.dateKey == date)
  }

  /** The adoption date is the smaller of the built-in one and the earliest lane build's. */
  lemma {:induction false} AdoptionDateIs(items: seq<CalverItem>)
    ensures IsAdoptionDate(items, EffectiveAdoptionDate(items))
  {
    if items == [] {
    } else {
      var rest := EffectiveAdoptionDate(items[1..]);
      AdoptionDateIs(items[1..]);
      assert items == [items[0]] + items[1..];
      if rest != LANE_FLOOR_ADOPTION_DATE_KEY {
        var c :| c in items[1..] && IsLaneBuild(c) && c.floors.dateKey == rest;
        assert c in items;
      }
      assert items[0] in items;
    }
  }

  lemma SameAdoptionDate(items: seq<CalverItem>, other: seq<CalverItem>)
    requires multiset(items) == multiset(other)
    ensures EffectiveAdoptionDate(items) == EffectiveAdoptionDate(other)
  {
    AdoptionDateIs(items);
    AdoptionDateIs(other);
    assert forall c :: c in items <==> c in multiset(items);
    assert forall c :: c in other <==> c in multiset(other);
  }

  /** The errors of a feed are the same whatever the order of its items. */
  lemma ErrorsIgnoreOrder(items: seq<Item>, other: seq<Item>)
    requires multiset(items) == multiset(other)
    ensures multiset(Errors(items)) == multiset(Errors(other))
  {
    var calver, calver' := CalverItems(items), CalverItems(other);
    assert |multiset(items)| == |items| && |multiset(other)| == |other|;
    FilterMapPermutes(items, other, ItemError);
    FilterMapPermutes(items, other, CalverOf);
    SameAdoptionDate(calver, calver');
    var adoption := EffectiveAdoptionDate(calver);
    FilterMapPermutes(calver, calver', FloorErrorFrom(adoption));
  }

  // ---------- what an accepted feed guarantees ----------

  /** A feed is accepted exactly when it has items, each with a numeric build, and every CalVer
      item's build is at least its floor: the lane floor for a lane build and from the adoption
      date on, and the legacy floor otherwise. */
  lemma AcceptedIff(items: seq<Item>)
    ensures Errors(items) == []
            <==> && items != []
                 && (forall i :: i in items ==> i.version.Some? && IsNumeral(i.version.value))
                 && forall c :: c in CalverItems(items) ==>
                      c.build.AtLeast(Floor(c, EffectiveAdoptionDate(CalverItems(items))))
  {
    var calver := CalverItems(items);
    var adoption := EffectiveAdoptionDate(calver);
    FilterMapMeaning(items, ItemError);
    FilterMapMeaning(calver, FloorErrorFrom(adoption));
  }

  lemma ReadableIsNotBlank(t: string, c: Calver)
    requires Reads(Trim(t), c)
    ensures t != ""
  {
  }

  lemma IsCalverItem(items: seq<Item>, item: Item, floors: Floors)
    requires item in items && ItemError(item).None? && item.version.Some? && IsNumeral(item.version.value)
    requires item.shortVersion.Some? && item.shortVersion.value != ""
    requires SparkleBuildFloors(item.shortVersion.value) == Some(floors)
    ensures CalverItem(Title(item), ToDouble(Val(item.version.value)), floors) in CalverItems(items)
  {
    FilterMapMeaning(items, CalverOf);
    assert CalverOf(item) == Some(CalverItem(Title(item), ToDouble(Val(item.version.value)), floors));
  }

  /** In an accepted feed an item dated in the year 1000 or later and on or after the adoption
      date has a build of at least its lane floor, and so of at least 10^9, the smallest lane build. */
  lemma AcceptedLaneBuilds(items: seq<Item>, item: Item, c: Calver)
    requires Errors(items) == [] && item in items
    requires item.shortVersion.Some? && Reads(Trim(item.shortVersion.value), c)
    requires Val(c.year) >= 1000 && ReleaseOf(c).DateKey() >= EffectiveAdoptionDate(CalverItems(items))
    ensures item.version.Some? && IsNumeral(item.version.value)
    ensures Val(item.version.value) >= Numbers(ReleaseOf(c)).laneFloor >= LANE_BUILD_MIN
  {
    var r := ReleaseOf(c);
    AcceptedIff(items);
    ReadableIsNotBlank(item.shortVersion.value, c);
    FloorsOfMatch(item.shortVersion.value, c);
    IsCalverItem(items, item, Numbers(r));
    FloorsMeaning(r);
    ToDoubleKeepsOrder(Val(item.version.value), Numbers(r).laneFloor);
  }
}

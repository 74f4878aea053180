/** Temporary permission for phone commands (extensions/phone-control/index.ts): arming adds
    a group to the allow list and takes it off the deny list, and leaves a record from which
    disarming, by hand or on expiry, undoes exactly that. */
module PhoneControl {
  import opened Text
  import opened SortedText

  datatype Group = Camera | Screen | Writes | All

  const CAMERA: seq<string> := ["camera.snap", "camera.clip"]
  const SCREEN: seq<string> := ["screen.record"]
  const WRITES: seq<string> := ["calendar.add", "contacts.add", "reminders.add", "sms.send"]

  function GroupList(group: Group): seq<string> {
    match group
    case Camera => CAMERA
    case Screen => SCREEN
    case Writes => WRITES
    case All => CAMERA + SCREEN + WRITES
  }

  /** resolveCommandsForGroup. */
  function Commands(group: Group): seq<string> {
    UniqSorted(GroupList(group))
  }

  /** The stored record; version 1 files know no allow list. */
  datatype Record =
    | V1(armedAtMs: int, expiresAtMs: Option<int>, removedFromDeny: seq<string>)
    | V2(armedAtMs: int, expiresAtMs: Option<int>, group: Group, armedCommands: seq<string>,
         addedToAllow: seq<string>, removedFromDeny: seq<string>)

  /** The two lists of the gateway configuration and the record file. */
  datatype State = State(allow: seq<string>, deny: seq<string>, record: Option<Record>)

  // ---------- the steps on values ----------

  /** What a step makes of the normalised lists, as sets. */
  ghost predicate Lists(st: State, allow: set<string>, deny: set<string>) {
    && IsSorted(st.allow) && Elements(st.allow) == allow
    && IsSorted(st.deny) && Elements(st.deny) == deny
  }

  ghost predicate IsArmed(before: State, after: State, group: Group, now: int, durationMs: int) {
    var commands := Elements(Commands(group));
    var allow, deny := Normal(before.allow), Normal(before.deny);
    && Lists(after, allow + commands, deny - commands)
    && after.record.Some? && after.record.value.V2?
    && var r := after.record.value;
       && r.armedAtMs == now && r.expiresAtMs == Some(now + durationMs) && r.group == group
       && r.armedCommands == Commands(group)
       && IsSorted(r.addedToAllow) && Elements(r.addedToAllow) == commands - allow
       && IsSorted(r.removedFromDeny) && Elements(r.removedFromDeny) == commands * deny
  }

  /** The commands a record makes disarming take off the allow list. */
  function Added(r: Record): seq<string> {
    if r.V1? then [] else r.addedToAllow
  }

  /** What disarming takes off the allow list, and what it puts back on the deny list. */
  function TakenOff(r: Record, allow: seq<string>): set<string> {
    Normal(allow) * Elements(Added(r))
  }

  function PutBack(r: Record, deny: seq<string>): set<string> {
    Elements(r.removedFromDeny) - Normal(deny)
  }

  /** Written lists are trimmed once more; only a hand-made record holds untrimmed commands. */
  function Trimmed(values: set<string>): set<string> {
    set v | v in values && Trim(v) != "" :: Trim(v)
  }

  /** Disarming takes back what the record says; lists that need no change are not rewritten. */
  ghost predicate IsDisarmed(before: State, after: State) {
    match before.record
    case None => after == before
    case Some(r) =>
      var allow, deny := Normal(before.allow), Normal(before.deny);
      var allow', deny' := allow - Elements(Added(r)), deny + Elements(r.removedFromDeny);
      && after.record == None
      && if allow' == allow && deny' == deny then after.allow == before.allow && after.deny == before.deny
         else Lists(after, allow', Trimmed(deny'))
  }

  predicate IsExpired(st: State, now: int) {
    st.record.Some? && st.record.value.expiresAtMs.Some? && now >= st.record.value.expiresAtMs.value
  }

  // ---------- JavaScript sets as lists without duplicates ----------

  function Without(s: seq<string>, x: string): seq<string> {
    if s == [] then [] else (if s[0] == x then [] else [s[0]]) + Without(s[1..], x)
  }

  lemma {:induction false} WithoutElements(s: seq<string>, x: string)
    ensures Elements(Without(s, x)) == Elements(s) - {x}
  {
    if s == [] {
    } else {
      WithoutElements(s[1..], x);
      assert Elements(s) == {s[0]} + Elements(s[1..]);
      assert Elements(Without(s, x)) == (if s[0] == x then {} else {s[0]}) + Elements(Without(s[1..], x));
    }
  }

  lemma NormalOfTrimmed(s: seq<string>)
    ensures Normal(s) == Trimmed(Elements(s))
  {
  }

  lemma TrimmedFixed(values: set<string>)
    requires forall v :: v in values ==> Trim(v) == v && v != ""
    ensures Trimmed(values) == values
  {
  }

  const CAMERA_COMMANDS: set<string> := {"camera.snap", "camera.clip"}
  const SCREEN_COMMANDS: set<string> := {"screen.record"}
  const WRITE_COMMANDS: set<string> := {"calendar.add", "contacts.add", "reminders.add", "sms.send"}

  lemma CommandsOfList(list: seq<string>, values: set<string>)
    requires Elements(list) == values && forall v :: v in values ==> IsTrimmed(v) && v != ""
    ensures Elements(UniqSorted(list)) == values
  {
    UniqSortedMeaning(list);
    forall v | v in values ensures Trim(v) == v {
      TrimFixed(v);
    }
    assert forall v :: v in list <==> v in values;
  }

  lemma CameraTrimmed()
    ensures Elements(CAMERA) == CAMERA_COMMANDS && forall v :: v in CAMERA_COMMANDS ==> IsTrimmed(v) && v != ""
  {
  }

  lemma ScreenTrimmed()
    ensures Elements(SCREEN) == SCREEN_COMMANDS && forall v :: v in SCREEN_COMMANDS ==> IsTrimmed(v) && v != ""
  {
  }

  lemma WritesTrimmed()
    ensures Elements(WRITES) == WRITE_COMMANDS && forall v :: v in WRITE_COMMANDS ==> IsTrimmed(v) && v != ""
  {
  }

  lemma ElementsConcat(s: seq<string>, t: seq<string>)
    ensures Elements(s + t) == Elements(s) + Elements(t)
  {
  }

  /** The commands of each group, and that the last one has all of them. */
  lemma GroupCommands()
    ensures Elements(Commands(Camera)) == CAMERA_COMMANDS
    ensures Elements(Commands(Screen)) == SCREEN_COMMANDS
    ensures Elements(Commands(Writes)) == WRITE_COMMANDS
    ensures Elements(Commands(All)) == CAMERA_COMMANDS + SCREEN_COMMANDS + WRITE_COMMANDS
  {
    CameraTrimmed();
    ScreenTrimmed();
    WritesTrimmed();
    CommandsOfList(CAMERA, CAMERA_COMMANDS);
    CommandsOfList(SCREEN, SCREEN_COMMANDS);
    CommandsOfList(WRITES, WRITE_COMMANDS);
    ElementsConcat(CAMERA, SCREEN);
    ElementsConcat(CAMERA + SCREEN, WRITES);
    CommandsOfList(CAMERA + SCREEN + WRITES, CAMERA_COMMANDS + SCREEN_COMMANDS + WRITE_COMMANDS);
  }

  lemma CommandsTrimmed(group: Group)
    ensures forall c :: c in Commands(group) ==> Trim(c) == c && c != ""
    ensures IsSorted(Commands(group))
  {
    UniqSortedMeaning(GroupList(group));
    forall c | c in Commands(group) ensures Trim(c) == c && c != "" {
      assert c in Elements(Commands(group));
      NormalIsTrimmed(GroupList(group), c);
    }
  }

  // ---------- the program ----------

  lemma SetsChange(a: set<string>, x: set<string>, d: set<string>, y: set<string>)
    ensures a - x == a <==> a * x == {}
    ensures d + y == d <==> y - d == {}
  {
    assert a * x == {} ==> forall v :: v in a ==> v !in x by {
      forall v | v in a && v in x ensures a * x != {} {
        assert v in a * x;
      }
    }
    assert y - d == {} ==> forall v :: v in y ==> v in d by {
      forall v | v in y && v !in d ensures y - d != {} {
        assert v in y - d;
      }
    }
  }

  lemma NoElements(s: seq<string>)
    ensures s == [] <==> Elements(s) == {}
  {
    assert s != [] ==> s[0] in Elements(s);
  }

  lemma ElementsAppend(s: seq<string>, x: string)
    ensures Elements(s + [x]) == Elements(s) + {x}
  {
  }

  lemma FreshCommand(commands: seq<string>, i: nat)
    requires i < |commands| && IsSorted(commands)
    ensures Elements(commands[..i + 1]) == Elements(commands[..i]) + {commands[i]}
    ensures commands[i] !in Elements(commands[..i])
  {
    assert commands[..i + 1] == commands[..i] + [commands[i]];
    ElementsAppend(commands[..i], commands[i]);
    LessTotal(commands[i], commands[i]);
  }

  lemma CanonicalOf(s: seq<string>)
    ensures IsSorted(UniqSorted(s)) && Elements(UniqSorted(s)) == Trimmed(Elements(s))
  {
    UniqSortedMeaning(s);
    NormalOfTrimmed(s);
  }

  lemma NormalSubset(list: seq<string>, values: set<string>)
    requires values <= Normal(list)
    ensures Trimmed(values) == values
  {
    forall v | v in values ensures Trim(v) == v && v != "" {
      NormalIsTrimmed(list, v);
    }
    TrimmedFixed(values);
  }

  lemma NormalTrimmedSets(st: State, commands: seq<string>)
    requires forall c :: c in commands ==> Trim(c) == c && c != ""
    ensures var a, d, c := Normal(st.allow), Normal(st.deny), Elements(commands);
            Trimmed(a + c) == a + c && Trimmed(d - c) == d - c && Trimmed(c - a) == c - a && Trimmed(c * d) == c * d
  {
    forall v | v in Normal(st.allow) ensures Trim(v) == v && v != "" { NormalIsTrimmed(st.allow, v); }
    NormalSubset(st.deny, Normal(st.deny) - Elements(commands));
    TrimmedFixed(Normal(st.allow) + Elements(commands));
    TrimmedFixed(Elements(commands) - Normal(st.allow));
    TrimmedFixed(Elements(commands) * Normal(st.deny));
  }

  lemma SortedFixed(s: seq<string>)
    requires IsSorted(s) && forall c :: c in s ==> Trim(c) == c && c != ""
    ensures UniqSorted(s) == s
  {
    CanonicalOf(s);
    TrimmedFixed(Elements(s));
    SortedUnique(UniqSorted(s), s);
  }

  lemma CanonicalTrimmed(s: seq<string>)
    requires Trimmed(Elements(s)) == Elements(s)
    ensures IsSorted(UniqSorted(s)) && Elements(UniqSorted(s)) == Elements(s)
  {
    CanonicalOf(s);
  }

  /** What the loop over the group makes of the two sets is what arming promises. */
  lemma ArmedIs(before: State, after: State, group: Group, now: int, durationMs: int, allowSet: seq<string>,
                denySet: seq<string>, addedToAllow: seq<string>, removedFromDeny: seq<string>)
    requires var commands := Elements(Commands(group));
             && Elements(allowSet) == Normal(before.allow) + commands
             && Elements(denySet) == Normal(before.deny) - commands
             && Elements(addedToAllow) == commands - Normal(before.allow)
             && Elements(removedFromDeny) == commands * Normal(before.deny)
    requires after == State(UniqSorted(allowSet), UniqSorted(denySet),
                            Some(V2(now, Some(now + durationMs), group, UniqSorted(Commands(group)),
                                    UniqSorted(addedToAllow), UniqSorted(removedFromDeny))))
    ensures IsArmed(before, after, group, now, durationMs)
  {
    CommandsTrimmed(group);
    NormalTrimmedSets(before, Commands(group));
    CanonicalTrimmed(allowSet);
    CanonicalTrimmed(denySet);
    CanonicalTrimmed(addedToAllow);
    CanonicalTrimmed(removedFromDeny);
    SortedFixed(Commands(group));
  }

  class Controller {
    var allow: seq<string>
    var deny: seq<string>
    var record: Option<Record>

    function Now(): State
      reads this
    {
      State(allow, deny, record)
    }

    constructor (allow: seq<string>, deny: seq<string>, record: Option<Record>)
      ensures Now() == State(allow, deny, record)
    {
      this.allow, this.deny, this.record := allow, deny, record;
    }

    /** The loop of the `arm` branch, over the two sets. */
    method AllowCommands(commands: seq<string>, allowed: seq<string>, denied: seq<string>)
      returns (allowSet: seq<string>, denySet: seq<string>, addedToAllow: seq<string>, removedFromDeny: seq<string>)
      requires IsSorted(commands)
      ensures Elements(allowSet) == Elements(allowed) + Elements(commands)
      ensures Elements(denySet) == Elements(denied) - Elements(commands)
      ensures Elements(addedToAllow) == Elements(commands) - Elements(allowed)
      ensures Elements(removedFromDeny) == Elements(commands) * Elements(denied)
    {
      allowSet, denySet, addedToAllow, removedFromDeny := allowed, denied, [], [];
      ghost var a, d := Elements(allowed), Elements(denied);
      for i := 0 to |commands|
        invariant Elements(allowSet) == a + Elements(commands[..i])
        invariant Elements(denySet) == d - Elements(commands[..i])
        invariant Elements(addedToAllow) == Elements(commands[..i]) - a
        invariant Elements(removedFromDeny) == Elements(commands[..i]) * d
      {
        var cmd := commands[i];
        FreshCommand(commands, i);
        assert cmd in allowSet <==> cmd in Elements(allowSet);
        assert cmd in denySet <==> cmd in Elements(denySet);
        ElementsAppend(allowSet, cmd);
        ElementsAppend(addedToAllow, cmd);
        ElementsAppend(removedFromDeny, cmd);
        WithoutElements(denySet, cmd);
        if cmd !in allowSet {
          allowSet := allowSet + [cmd];
          addedToAllow := addedToAllow + [cmd];
        }
        if cmd in denySet {
          denySet := Without(denySet, cmd);
          removedFromDeny := removedFromDeny + [cmd];
        }
      }
      assert commands[..|commands|] == commands;
    }

    /** The `arm` branch of the command handler. */
    method Arm(group: Group, now: int, durationMs: int)
      modifies this
      ensures IsArmed(old(Now()), Now(), group, now, durationMs)
    {
      var commands := Commands(group);
      CommandsTrimmed(group);
      UniqSortedMeaning(allow);
      UniqSortedMeaning(deny);
      var allowSet, denySet, addedToAllow, removedFromDeny :=
          AllowCommands(commands, UniqSorted(allow), UniqSorted(deny));
      ghost var before := Now();
      allow := UniqSorted(allowSet);
      deny := UniqSorted(denySet);
      record := Some(V2(now, Some(now + durationMs), group, UniqSorted(commands),
                        UniqSorted(addedToAllow), UniqSorted(removedFromDeny)));
      ArmedIs(before, Now(), group, now, durationMs, allowSet, denySet, addedToAllow, removedFromDeny);
    }

    /** The loop that takes commands off a set; returns those that were in it. */
    method TakeOff(commands: seq<string>, values: seq<string>) returns (left: seq<string>, removed: seq<string>)
      ensures Elements(left) == Elements(values) - Elements(commands)
      ensures Elements(removed) == Elements(values) * Elements(commands)
    {
      left, removed := values, [];
      for i := 0 to |commands|
        invariant Elements(left) == Elements(values) - Elements(commands[..i])
        invariant Elements(removed) == Elements(values) * Elements(commands[..i])
      {
        var cmd := commands[i];
        ElementsAppend(commands[..i], cmd);
        ElementsAppend(removed, cmd);
        assert commands[..i + 1] == commands[..i] + [cmd];
        assert cmd in left <==> cmd in Elements(left);
        WithoutElements(left, cmd);
        if cmd in left {
          left := Without(left, cmd);
          removed := removed + [cmd];
        }
      }
      assert commands[..|commands|] == commands;
    }

    /** The loop that puts commands on a set; returns those that were not in it. */
    method PutOn(commands: seq<string>, values: seq<string>) returns (more: seq<string>, restored: seq<string>)
      ensures Elements(more) == Elements(values) + Elements(commands)
      ensures Elements(restored) == Elements(commands) - Elements(values)
    {
      more, restored := values, [];
      for i := 0 to |commands|
        invariant Elements(more) == Elements(values) + Elements(commands[..i])
        invariant Elements(restored) == Elements(commands[..i]) - Elements(values)
      {
        var cmd := commands[i];
        ElementsAppend(commands[..i], cmd);
        ElementsAppend(restored, cmd);
        assert commands[..i + 1] == commands[..i] + [cmd];
        assert cmd in more <==> cmd in Elements(more);
        ElementsAppend(more, cmd);
        if cmd !in more {
          more := more + [cmd];
          restored := restored + [cmd];
        }
      }
      assert commands[..|commands|] == commands;
    }

    /** Taking back what the record says. */
    method TakeBack(r: Record) returns (changed: bool, restored: seq<string>, removed: seq<string>)
      modifies `allow, `deny
      ensures IsDisarmed(old(State(allow, deny, Some(r))), State(allow, deny, None))
      ensures !changed ==> allow == old(allow) && deny == old(deny)
      ensures changed <==> TakenOff(r, old(allow)) != {} || PutBack(r, old(deny)) != {}
      ensures Elements(removed) == TakenOff(r, old(allow)) && Elements(restored) == PutBack(r, old(deny))
    {
      UniqSortedMeaning(allow);
      UniqSortedMeaning(deny);
      var allowSet, denySet;
      allowSet, removed := TakeOff(Added(r), UniqSorted(allow));
      denySet, restored := PutOn(r.removedFromDeny, UniqSorted(deny));
      changed := removed != [] || restored != [];
      NoElements(removed);
      NoElements(restored);
      SetsChange(Normal(allow), Elements(Added(r)), Normal(deny), Elements(r.removedFromDeny));
      if changed {
        CanonicalOf(allowSet);
        CanonicalOf(denySet);
        NormalSubset(allow, Elements(allowSet));
        allow := UniqSorted(allowSet);
        deny := UniqSorted(denySet);
      }
    }

    /** disarmNow; it answers whether the lists changed, what was put back on the deny list and
        what was taken off the allow list. */
    method DisarmNow() returns (changed: bool, restored: seq<string>, removed: seq<string>)
      modifies this
      ensures IsDisarmed(old(Now()), Now())
      ensures !changed ==> Now() == old(Now()).(record := None)
      ensures match old(record)
              case None => !changed && restored == [] && removed == []
              case Some(r) =>
                && (changed <==> TakenOff(r, old(allow)) != {} || PutBack(r, old(deny)) != {})
                && IsSorted(removed) && Elements(removed) == Trimmed(TakenOff(r, old(allow)))
                && IsSorted(restored) && Elements(restored) == Trimmed(PutBack(r, old(deny)))
    {
      if record.None? {
        return false, [], [];
      }
      var takenOff, putBack;
      changed, putBack, takenOff := TakeBack(record.value);
      record := None;
      CanonicalOf(takenOff);
      CanonicalOf(putBack);
      restored, removed := UniqSorted(putBack), UniqSorted(takenOff);
    }

    /** The expiry tick. */
    method Tick(now: int)
      modifies this
      ensures if old(record).Some? && old(record).value.expiresAtMs.Some? && old(record).value.expiresAtMs.value <= now
              then IsDisarmed(old(Now()), Now()) else Now() == old(Now())
    {
      if record.None? || record.value.expiresAtMs.None? {
        return;
      }
      if now < record.value.expiresAtMs.value {
        return;
      }
      var _, _, _ := DisarmNow();
    }
  }
}

/** What arming and disarming guarantee over whole runs, with outside edits of the
    configuration between the steps. */
module PhoneControlRuns {
  import opened Text
  import opened SortedText
  import opened PhoneControl

  datatype Event =
    | Arm(group: Group, now: int, durationMs: int)
    | Disarm
    | Tick(now: int)
    | Edit(allow: seq<string>, deny: seq<string>)

  ghost predicate IsStep(before: State, e: Event, after: State) {
    match e
    case Arm(group, now, durationMs) => IsArmed(before, after, group, now, durationMs)
    case Disarm => IsDisarmed(before, after)
    case Tick(now) => if IsExpired(before, now) then IsDisarmed(before, after) else after == before
    case Edit(allow, deny) => after == before.(allow := allow, deny := deny)
  }

  /** The event takes the permissions back. */
  predicate Disarms(st: State, e: Event) {
    e.Disarm? || (e.Tick? && IsExpired(st, e.now))
  }

  ghost predicate IsRun(states: seq<State>, events: seq<Event>) {
    |states| == |events| + 1 && forall k :: 0 <= k < |events| ==> IsStep(states[k], events[k], states[k + 1])
  }

  /** Whether a command is on the normalised allow list, and on the normalised deny list. */
  function Standing(st: State, c: string): (bool, bool) {
    (c in Normal(st.allow), c in Normal(st.deny))
  }

  lemma NormalValues(values: seq<string>)
    ensures forall v :: v in Normal(values) ==> Trim(v) == v && v != ""
  {
    forall v | v in Normal(values) ensures Trim(v) == v && v != "" {
      NormalIsTrimmed(values, v);
    }
  }

  lemma ListsNormal(list: seq<string>, values: set<string>)
    requires Elements(list) == values && forall v :: v in values ==> Trim(v) == v && v != ""
    ensures Normal(list) == values
  {
  }

  /** Arming puts exactly the group on the allow list and takes exactly the group off the
      deny list. */
  lemma ArmedLists(before: State, after: State, group: Group, now: int, durationMs: int)
    requires IsArmed(before, after, group, now, durationMs)
    ensures Normal(after.allow) == Normal(before.allow) + Elements(Commands(group))
    ensures Normal(after.deny) == Normal(before.deny) - Elements(Commands(group))
  {
    CommandsTrimmed(group);
    NormalValues(before.allow);
    NormalValues(before.deny);
    forall v | v in Elements(Commands(group)) ensures Trim(v) == v && v != "" {
    }
    ListsNormal(after.allow, Normal(before.allow) + Elements(Commands(group)));
    ListsNormal(after.deny, Normal(before.deny) - Elements(Commands(group)));
  }

  /** Disarming takes the commands of the record off the allow list and puts those it had
      removed back on the deny list. */
  lemma DisarmedLists(before: State, after: State)
    requires IsDisarmed(before, after) && before.record.Some?
    ensures Normal(after.allow) == Normal(before.allow) - Elements(Added(before.record.value))
    ensures Normal(after.deny) == Normal(before.deny) + Trimmed(Elements(before.record.value.removedFromDeny))
  {
    var r := before.record.value;
    var allow, deny := Normal(before.allow), Normal(before.deny);
    NormalValues(before.allow);
    NormalValues(before.deny);
    var allow', deny' := allow - Elements(Added(r)), deny + Elements(r.removedFromDeny);
    TrimmedFixed(deny);
    assert Trimmed(deny') == Trimmed(deny) + Trimmed(Elements(r.removedFromDeny));
    if allow' == allow && deny' == deny {
      assert Trimmed(deny') == deny;
    } else {
      ListsNormal(after.allow, allow');
      forall v | v in Trimmed(deny') ensures Trim(v) == v && v != "" {
        var u :| u in deny' && Trim(u) == v;
        TrimIdempotent(u);
      }
      ListsNormal(after.deny, Trimmed(deny'));
    }
  }

  /** A record of version 1 leaves the allow list alone, and disarming puts back what it names. */
  lemma FirstVersionDisarms(before: State, after: State, armedAtMs: int, expiresAtMs: Option<int>,
                            removed: seq<string>)
    requires before.record == Some(V1(armedAtMs, expiresAtMs, removed)) && IsDisarmed(before, after)
    ensures after.record == None && Normal(after.allow) == Normal(before.allow)
    ensures Normal(after.deny) == Normal(before.deny) + Normal(removed)
  {
    DisarmedLists(before, after);
    NormalOfTrimmed(removed);
  }

  /** The record is the one the given arming wrote when the lists were `origin`. */
  ghost predicate IsRecordOf(r: Record, origin: State, group: Group) {
    && r.V2? && r.group == group
    && Elements(r.addedToAllow) == Elements(Commands(group)) - Normal(origin.allow)
    && Elements(r.removedFromDeny) == Elements(Commands(group)) * Normal(origin.deny)
  }

  /** Between arming and disarming a command stands as arming left it. */
  ghost predicate StandsAsArmed(st: State, origin: State, group: Group, c: string) {
    && (c in Normal(st.allow) <==> c in Normal(origin.allow) || c in Commands(group))
    && (c in Normal(st.deny) <==> c in Normal(origin.deny) && c !in Commands(group))
  }

  lemma DisarmRestores(before: State, after: State, origin: State, group: Group, c: string)
    requires IsDisarmed(before, after) && before.record.Some? && IsRecordOf(before.record.value, origin, group)
    requires StandsAsArmed(before, origin, group, c)
    ensures Standing(after, c) == Standing(origin, c)
  {
    DisarmedLists(before, after);
    NormalValues(origin.deny);
    TrimmedFixed(Elements(before.record.value.removedFromDeny));
    assert c in Commands(group) <==> c in Elements(Commands(group));
  }

  /** No event after `a` and before `b` arms again or changes how c stands by an edit. */
  ghost predicate Undisturbed(states: seq<State>, events: seq<Event>, a: nat, b: nat, c: string)
    requires |states| == |events| + 1 && b <= |events|
  {
    forall k :: a < k < b ==>
      !events[k].Arm? && (events[k].Edit? ==> Standing(states[k + 1], c) == Standing(states[k], c))
  }

  lemma {:induction false} ArmedUntil(states: seq<State>, events: seq<Event>, a: nat, b: nat, c: string)
    requires IsRun(states, events) && a < b <= |events| && events[a].Arm? && states[b].record.Some?
    requires Undisturbed(states, events, a, b, c)
    ensures IsRecordOf(states[b].record.value, states[a], events[a].group)
    ensures StandsAsArmed(states[b], states[a], events[a].group, c)
  {
    assert IsStep(states[b - 1], events[b - 1], states[b]);
    if b == a + 1 {
      var e := events[a];
      ArmedLists(states[a], states[b], e.group, e.now, e.durationMs);
      assert c in Commands(e.group) <==> c in Elements(Commands(e.group));
    } else {
      assert states[b - 1].record == states[b].record;
      ArmedUntil(states, events, a, b - 1, c);
    }
  }

  /** Disarming, by hand or on expiry, restores how every command stood just before the most
      recent arming, whatever edits were made to other commands in between. */
  lemma DisarmUndoesLastArm(states: seq<State>, events: seq<Event>, a: nat, b: nat, c: string)
    requires IsRun(states, events) && a < b < |events| && events[a].Arm?
    requires states[b].record.Some? && Disarms(states[b], events[b])
    requires Undisturbed(states, events, a, b, c)
    ensures Standing(states[b + 1], c) == Standing(states[a], c)
  {
    ArmedUntil(states, events, a, b, c);
    assert IsStep(states[b], events[b], states[b + 1]);
    DisarmRestores(states[b], states[b + 1], states[a], events[a].group, c);
  }

  /** Without outside edits, the normalised lists themselves are restored. */
  lemma DisarmRestoresLists(states: seq<State>, events: seq<Event>, a: nat, b: nat)
    requires IsRun(states, events) && a < b < |events| && events[a].Arm?
    requires states[b].record.Some? && Disarms(states[b], events[b])
    requires forall k :: a < k < b ==> !events[k].Arm? && !events[k].Edit?
    ensures UniqSorted(states[b + 1].allow) == UniqSorted(states[a].allow)
    ensures UniqSorted(states[b + 1].deny) == UniqSorted(states[a].deny)
  {
    forall c: string
      ensures c in Normal(states[b + 1].allow) <==> c in Normal(states[a].allow)
      ensures c in Normal(states[b + 1].deny) <==> c in Normal(states[a].deny)
    {
      DisarmUndoesLastArm(states, events, a, b, c);
    }
    UniqSortedEqualIff(states[b + 1].allow, states[a].allow);
    UniqSortedEqualIff(states[b + 1].deny, states[a].deny);
  }

  // ---------- expiry ----------

  /** Only edits, and ticks before the time is up, come between the arming at a and the event b. */
  ghost predicate IsWaiting(events: seq<Event>, a: nat, b: nat)
    requires a < b <= |events| && events[a].Arm?
  {
    forall k :: a < k < b ==>
      events[k].Edit? || (events[k].Tick? && events[k].now < events[a].now + events[a].durationMs)
  }

  lemma WaitingStep(states: seq<State>, events: seq<Event>, k: nat, end: int)
    requires IsRun(states, events) && k < |events|
    requires events[k].Edit? || (events[k].Tick? && events[k].now < end)
    requires states[k].record.Some? && states[k].record.value.expiresAtMs == Some(end)
    ensures states[k + 1].record == states[k].record
    ensures events[k].Tick? ==> states[k + 1] == states[k]
  {
    assert IsStep(states[k], events[k], states[k + 1]);
  }

  lemma ArmedExpiry(before: State, after: State, group: Group, now: int, durationMs: int)
    requires IsArmed(before, after, group, now, durationMs)
    ensures after.record.Some? && after.record.value.expiresAtMs == Some(now + durationMs)
  {
  }

  lemma ArmingStep(states: seq<State>, events: seq<Event>, k: nat)
    requires IsRun(states, events) && k < |events| && events[k].Arm?
    ensures states[k + 1].record.Some?
    ensures states[k + 1].record.value.expiresAtMs == Some(events[k].now + events[k].durationMs)
  {
    var e := events[k];
    assert IsArmed(states[k], states[k + 1], e.group, e.now, e.durationMs) by {
      assert IsStep(states[k], e, states[k + 1]);
    }
    ArmedExpiry(states[k], states[k + 1], e.group, e.now, e.durationMs);
  }

  lemma {:induction false} RecordWaits(states: seq<State>, events: seq<Event>, a: nat, b: nat)
    requires IsRun(states, events) && a < b <= |events| && events[a].Arm? && IsWaiting(events, a, b)
    ensures states[b].record.Some?
    ensures states[b].record.value.expiresAtMs == Some(events[a].now + events[a].durationMs)
  {
    if b == a + 1 {
      ArmingStep(states, events, a);
    } else {
      RecordWaits(states, events, a, b - 1);
      WaitingStep(states, events, b - 1, events[a].now + events[a].durationMs);
    }
  }

  /** A tick after an arming: once the duration is over it takes the permission back, for every
      command no edit touched, and until then it changes nothing. */
  lemma TickTakesBackIff(states: seq<State>, events: seq<Event>, a: nat, b: nat, c: string)
    requires IsRun(states, events) && a < b < |events| && events[a].Arm? && events[b].Tick?
    requires IsWaiting(events, a, b) && Undisturbed(states, events, a, b, c)
    ensures events[b].now < events[a].now + events[a].durationMs ==> states[b + 1] == states[b]
    ensures events[b].now >= events[a].now + events[a].durationMs ==>
              states[b + 1].record == None && Standing(states[b + 1], c) == Standing(states[a], c)
  {
    RecordWaits(states, events, a, b);
    assert IsStep(states[b], events[b], states[b + 1]);
    if events[b].now >= events[a].now + events[a].durationMs {
      DisarmUndoesLastArm(states, events, a, b, c);
    }
  }

  lemma QuietStep(states: seq<State>, events: seq<Event>, a: nat, k: nat)
    requires IsRun(states, events) && a < k < |events| && events[a].Arm? && IsWaiting(events, a, k + 1)
    requires !events[k].Edit?
    ensures states[k + 1] == states[k]
  {
    RecordWaits(states, events, a, k);
    WaitingStep(states, events, k, events[a].now + events[a].durationMs);
  }

  lemma {:induction false} SameThroughout(states: seq<State>, a: nat, b: nat)
    requires a < b < |states| && forall k :: a < k < b ==> states[k + 1] == states[k]
    ensures states[b] == states[a + 1]
  {
    if b == a + 1 {
    } else {
      SameThroughout(states, a, b - 1);
      assert states[b - 1 + 1] == states[b - 1];
    }
  }

  lemma NothingWhileWaiting(states: seq<State>, events: seq<Event>, a: nat, b: nat)
    requires IsRun(states, events) && a < b <= |events| && events[a].Arm? && IsWaiting(events, a, b)
    requires forall k :: a < k < b ==> !events[k].Edit?
    ensures states[b] == states[a + 1]
  {
    forall k | a < k < b ensures states[k + 1] == states[k] {
      QuietStep(states, events, a, k);
    }
    SameThroughout(states, a, b);
  }

  /** Without edits the state stays as arming left it until the first tick at which the duration is
      over, and that tick brings back the lists of before the arming. */
  lemma ExpiryRestoresLists(states: seq<State>, events: seq<Event>, a: nat, b: nat)
    requires IsRun(states, events) && a < b < |events| && events[a].Arm? && events[b].Tick?
    requires IsWaiting(events, a, b) && forall k :: a < k < b ==> !events[k].Edit?
    ensures events[b].now < events[a].now + events[a].durationMs ==> states[b + 1] == states[a + 1]
    ensures events[b].now >= events[a].now + events[a].durationMs ==>
              && states[b + 1].record == None
              && UniqSorted(states[b + 1].allow) == UniqSorted(states[a].allow)
              && UniqSorted(states[b + 1].deny) == UniqSorted(states[a].deny)
  {
    NothingWhileWaiting(states, events, a, b);
    RecordWaits(states, events, a, b);
    assert IsStep(states[b], events[b], states[b + 1]);
    if events[b].now >= events[a].now + events[a].durationMs {
      DisarmRestoresLists(states, events, a, b);
    }
  }

  /** Without an armed record, or with one that has no end, a tick changes nothing. */
  lemma TickWithoutEnd(states: seq<State>, events: seq<Event>, b: nat)
    requires IsRun(states, events) && b < |events| && events[b].Tick?
    requires states[b].record.Some? ==> states[b].record.value.expiresAtMs.None?
    ensures states[b + 1] == states[b]
  {
    assert IsStep(states[b], events[b], states[b + 1]);
  }

  // ---------- which commands are touched ----------

  /** Every record of a run that starts disarmed was written by arming some group and names
      only its commands. */
  ghost predicate NamesOnlyGroup(st: State) {
    st.record.Some? ==>
      var r := st.record.value;
      r.V2? && Elements(r.addedToAllow) + Elements(r.removedFromDeny) <= Elements(Commands(r.group))
  }

  /** Every record of a run names only commands of its group, or is the one the run started with. */
  lemma {:induction false} RecordsNameOnlyGroup(states: seq<State>, events: seq<Event>, k: nat)
    requires IsRun(states, events) && k <= |events|
    ensures NamesOnlyGroup(states[k]) || states[k].record == states[0].record
  {
    if k == 0 {
    } else {
      RecordsNameOnlyGroup(states, events, k - 1);
      assert IsStep(states[k - 1], events[k - 1], states[k]);
    }
  }

  /** The commands a record names. */
  function Named(r: Record): set<string> {
    Elements(Added(r)) + Trimmed(Elements(r.removedFromDeny))
  }

  lemma NamedInGroup(st: State)
    requires NamesOnlyGroup(st) && st.record.Some?
    ensures Named(st.record.value) <= Elements(Commands(st.record.value.group))
  {
    var r := st.record.value;
    CommandsTrimmed(r.group);
    forall v | v in Elements(r.removedFromDeny) ensures Trim(v) == v && v != "" {
      assert v in Commands(r.group);
    }
    TrimmedFixed(Elements(r.removedFromDeny));
  }

  /** The commands a step may touch: those of the group being armed, or of the armed group. */
  function Touched(st: State, e: Event): seq<string> {
    if e.Arm? then Commands(e.group)
    else if st.record.Some? && st.record.value.V2? then Commands(st.record.value.group)
    else []
  }

  /** No step other than an outside edit changes how a command outside the group stands, whatever
      was edited before, unless the record the run started with names the command. */
  lemma OutsideGroupUntouched(states: seq<State>, events: seq<Event>, k: nat, c: string)
    requires IsRun(states, events) && k < |events|
    requires states[0].record.Some? ==> c !in Named(states[0].record.value)
    requires !events[k].Edit? && c !in Touched(states[k], events[k])
    ensures Standing(states[k + 1], c) == Standing(states[k], c)
  {
    RecordsNameOnlyGroup(states, events, k);
    var before, after, e := states[k], states[k + 1], events[k];
    assert IsStep(before, e, after);
    if e.Arm? {
      ArmedLists(before, after, e.group, e.now, e.durationMs);
      assert c !in Elements(Commands(e.group));
    } else if before.record.Some? && Disarms(before, e) {
      DisarmedLists(before, after);
      if NamesOnlyGroup(before) {
        NamedInGroup(before);
      }
      assert c !in Named(before.record.value);
    }
  }

  // ---------- arming again ----------

  /** Disarming undoes the last of two armings only.  How a command stood before the first one
      comes back exactly when the first group does not have it, or when it was allowed and not
      denied already. */
  lemma RearmedCommandIff(states: seq<State>, events: seq<Event>, a: nat, m: nat, b: nat, c: string)
    requires IsRun(states, events) && a < m < b < |events| && events[a].Arm? && events[m].Arm?
    requires states[m].record.Some? && states[b].record.Some? && Disarms(states[b], events[b])
    requires Undisturbed(states, events, a, m, c) && Undisturbed(states, events, m, b, c)
    ensures Standing(states[b + 1], c) == Standing(states[a], c)
            <==> c !in Commands(events[a].group) || Standing(states[a], c) == (true, false)
  {
    DisarmUndoesLastArm(states, events, m, b, c);
    ArmedUntil(states, events, a, m, c);
  }

  /** Arming the group would change neither list. */
  ghost predicate HasNoEffect(st: State, group: Group) {
    forall c :: c in Commands(group) ==> Standing(st, c) == (true, false)
  }

  lemma SameListsIff(s: State, t: State)
    ensures UniqSorted(s.allow) == UniqSorted(t.allow) && UniqSorted(s.deny) == UniqSorted(t.deny)
            <==> forall c: string :: Standing(s, c) == Standing(t, c)
  {
    UniqSortedEqualIff(s.allow, t.allow);
    UniqSortedEqualIff(s.deny, t.deny);
    if forall c: string :: Standing(s, c) == Standing(t, c) {
      forall c: string ensures c in Normal(s.allow) <==> c in Normal(t.allow)
        ensures c in Normal(s.deny) <==> c in Normal(t.deny)
      {
        assert Standing(s, c) == Standing(t, c);
      }
      assert Normal(s.allow) == Normal(t.allow) && Normal(s.deny) == Normal(t.deny);
    }
  }

  /** Hence without outside edits the normalised lists before the first of two armings come back
      exactly when that arming had no effect on them. */
  lemma RearmedListsIff(states: seq<State>, events: seq<Event>, a: nat, m: nat, b: nat)
    requires IsRun(states, events) && a < m < b < |events| && events[a].Arm? && events[m].Arm?
    requires states[m].record.Some? && states[b].record.Some? && Disarms(states[b], events[b])
    requires forall k :: a < k < b && k != m ==> !events[k].Arm? && !events[k].Edit?
    ensures UniqSorted(states[b + 1].allow) == UniqSorted(states[a].allow)
            && UniqSorted(states[b + 1].deny) == UniqSorted(states[a].deny)
            <==> HasNoEffect(states[a], events[a].group)
  {
    forall c: string
      ensures Standing(states[b + 1], c) == Standing(states[a], c)
              <==> c !in Commands(events[a].group) || Standing(states[a], c) == (true, false)
    {
      RearmedCommandIff(states, events, a, m, b, c);
    }
    SameListsIff(states[b + 1], states[a]);
  }

  function ArmedRecord(group: Group, now: int, durationMs: int, added: seq<string>): Record {
    V2(now, Some(now + durationMs), group, Commands(group), added, [])
  }

  function Nothing(): State {
    State([], [], None)
  }

  function OnceArmed(group: Group, now: int, durationMs: int, added: seq<string>): State {
    State(Commands(group), [], Some(ArmedRecord(group, now, durationMs, added)))
  }

  lemma FirstCommand(group: Group)
    ensures GroupList(group) != [] && Trim(GroupList(group)[0]) != ""
  {
    var c := GroupList(group)[0];
    assert !IsSpace(c[0]) && !IsSpace(c[|c| - 1]);
    TrimFixed(c);
  }

  lemma CommandsNormal(group: Group)
    ensures Normal(Commands(group)) == Elements(Commands(group)) != {} && IsSorted(Commands(group))
  {
    CommandsTrimmed(group);
    ListsNormal(Commands(group), Elements(Commands(group)));
    UniqSortedMeaning(GroupList(group));
    FirstCommand(group);
    assert GroupList(group)[0] in GroupList(group);
    assert Trim(GroupList(group)[0]) in Normal(GroupList(group));
  }

  lemma ArmNothing(group: Group, now: int, durationMs: int)
    ensures IsArmed(Nothing(), OnceArmed(group, now, durationMs, Commands(group)), group, now, durationMs)
  {
    CommandsNormal(group);
  }

  lemma ArmAgain(group: Group, now: int, durationMs: int)
    ensures IsArmed(OnceArmed(group, now, durationMs, Commands(group)), OnceArmed(group, now, durationMs, []),
                    group, now, durationMs)
  {
    CommandsNormal(group);
  }

  lemma DisarmAgain(group: Group, now: int, durationMs: int)
    ensures IsDisarmed(OnceArmed(group, now, durationMs, []), State(Commands(group), [], None))
  {
  }

  /** From empty lists: arm a group, arm it again, disarm. */
  function RearmedRun(group: Group, now: int, durationMs: int): seq<State> {
    [Nothing(), OnceArmed(group, now, durationMs, Commands(group)), OnceArmed(group, now, durationMs, []),
     State(Commands(group), [], None)]
  }

  lemma ThreeSteps(s0: State, e0: Event, s1: State, e1: Event, s2: State, e2: Event, s3: State)
    requires IsStep(s0, e0, s1) && IsStep(s1, e1, s2) && IsStep(s2, e2, s3)
    ensures IsRun([s0, s1, s2, s3], [e0, e1, e2])
  {
  }

  lemma CommandsAreSome(group: Group)
    ensures UniqSorted(Commands(group)) != UniqSorted([])
  {
    CommandsNormal(group);
    UniqSortedEqualIff(Commands(group), []);
    assert Normal([]) == {};
  }

  /** That is a run in which the first lists do not come back: the group stays allowed. */
  lemma RearmingLeavesGroupAllowed(group: Group, now: int, durationMs: int)
    ensures var states, arm := RearmedRun(group, now, durationMs), Arm(group, now, durationMs);
            IsRun(states, [arm, arm, Disarm]) && UniqSorted(states[3].allow) != UniqSorted(states[0].allow)
  {
    ArmNothing(group, now, durationMs);
    ArmAgain(group, now, durationMs);
    DisarmAgain(group, now, durationMs);
    CommandsAreSome(group);
    var states, arm := RearmedRun(group, now, durationMs), Arm(group, now, durationMs);
    ThreeSteps(states[0], arm, states[1], arm, states[2], Disarm, states[3]);
  }
}

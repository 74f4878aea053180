/** What the usage report guarantees: its totals do not depend on the order of files and lines,
    and they add up, exactly as far as no inherited name gets in the way. */
module CronUsageTotals {
  import opened Text
  import opened Sequences
  import opened CronUsage

  // ---------- sums of permutations ----------

  lemma NumPlusMoves(a: Num, b: Num, c: Num)
    ensures a.Plus(b).Plus(c) == a.Plus(c).Plus(b)
    ensures a.Plus(b).Plus(c) == a.Plus(b.Plus(c))
  {
  }

  lemma PlusMoves(a: Counts, b: Counts, c: Counts)
    ensures a.Plus(b).Plus(c) == a.Plus(c).Plus(b) == a.Plus(b.Plus(c))
  {
    NumPlusMoves(a.input, b.input, c.input);
    NumPlusMoves(a.output, b.output, c.output);
    NumPlusMoves(a.total, b.total, c.total);
  }

  lemma PlusZero(c: Counts)
    ensures c.Plus(ZERO) == c
  {
  }

  lemma SumNothing(selects: Selection)
    ensures Sum([], selects) == ZERO
  {
  }

  lemma ConcatStep(s: seq<Entry>, t: seq<Entry>, e: Entry, selects: Selection, a: Counts, b: Counts,
                   whole: seq<Entry>, t': seq<Entry>)
    requires a == Sum(s, selects) && b == Sum(t, selects) && Sum(s + t, selects) == a.Plus(b)
    requires whole == (s + t) + [e] && t' == t + [e]
    ensures Sum(whole, selects) == a.Plus(Sum(t', selects))
  {
    SumPush(s + t, e, selects);
    SumPush(t, e, selects);
    PlusMoves(a, b, e.counts);
  }

  lemma {:induction false} SumConcat(s: seq<Entry>, t: seq<Entry>, selects: Selection)
    ensures Sum(s + t, selects) == Sum(s, selects).Plus(Sum(t, selects))
  {
    if t == [] {
      assert s + t == s;
      SumNothing(selects);
      PlusZero(Sum(s, selects));
    } else {
      var init, e := t[..|t| - 1], t[|t| - 1];
      SumConcat(s, init, selects);
      ConcatStep(s, init, e, selects, Sum(s, selects), Sum(init, selects), s + t, t);
    }
  }

  lemma SumAround(a: seq<Entry>, x: Entry, b: seq<Entry>, selects: Selection)
    ensures Sum((a + [x]) + b, selects) == Sum(a + b, selects).Plus(Sum([x], selects))
  {
    SumConcat(a, [x], selects);
    SumConcat(a + [x], b, selects);
    SumConcat(a, b, selects);
    PlusMoves(Sum(a, selects), Sum([x], selects), Sum(b, selects));
  }

  lemma SumWithout(s: seq<Entry>, i: nat, selects: Selection)
    requires i < |s|
    ensures Sum(s, selects) == Sum(Without(s, i), selects).Plus(Sum([s[i]], selects))
  {
    SplitAround(s, i);
    SumAround(s[..i], s[i], s[i + 1..], selects);
  }

  lemma {:induction false} SumPermutes(s: seq<Entry>, t: seq<Entry>, selects: Selection)
    requires multiset(s) == multiset(t)
    ensures Sum(s, selects) == Sum(t, selects)
    decreases |s|
  {
    if s == [] {
      assert |multiset(t)| == 0;
    } else {
      var i := SameElement(s, t);
      SumPermutes(Without(s, 0), Without(t, i), selects);
      SumWithout(s, 0, selects);
      SumWithout(t, i, selects);
    }
  }

  lemma SelectedPermutes(s: seq<Entry>, t: seq<Entry>, selects: Selection)
    requires multiset(s) == multiset(t)
    ensures Selected(s, selects) <==> Selected(t, selects)
  {
    assert forall e :: e in s <==> e in multiset(s);
    assert forall e :: e in t <==> e in multiset(t);
  }

  lemma SameRecord(job: JobTotals, other: JobTotals, j: string, s: seq<Entry>, t: seq<Entry>)
    requires IsRecordOf(job, j, s) && IsRecordOf(other, j, t) && multiset(s) == multiset(t)
    ensures job == other
  {
    SumPermutes(s, t, OfJob(j));
    forall m ensures m in job.models <==> m in other.models
      ensures m in job.models ==> job.models[m] == other.models[m]
    {
      SelectedPermutes(s, t, OfModel(j, m));
      SumPermutes(s, t, OfModel(j, m));
    }
    assert job.models == other.models;
  }

  /** The totals are determined by the entries, whatever their order. */
  lemma SameTotals(totals: Totals, other: Totals, s: seq<Entry>, t: seq<Entry>)
    requires Groups(totals, s) && Groups(other, t) && multiset(s) == multiset(t)
    ensures totals == other
  {
    forall j ensures j in totals <==> j in other
      ensures j in totals ==> totals[j] == other[j]
    {
      SelectedPermutes(s, t, OfJob(j));
      if j in totals {
        SameRecord(totals[j], other[j], j, s, t);
      }
    }
  }

  // ---------- the order of files and lines ----------

  function Jobs(entries: seq<Entry>): set<string> {
    set e | e in entries :: e.jobId
  }

  function ModelsOf(entries: seq<Entry>, j: string): set<string> {
    set e | e in entries && e.jobId == j && !IsInherited(e.model) :: e.model
  }

  function RecordOf(entries: seq<Entry>, j: string): JobTotals {
    JobTotals(j, Sum(entries, OfJob(j)), map m | m in ModelsOf(entries, j) ::
      ModelTotals(m, Sum(entries, OfModel(j, m))))
  }

  /** The totals of some entries. */
  function Grouped(entries: seq<Entry>): Totals {
    map j | j in Jobs(entries) :: RecordOf(entries, j)
  }

  lemma ModelsSelected(entries: seq<Entry>, j: string, m: string)
    ensures m in ModelsOf(entries, j) <==> Selected(entries, OfModel(j, m)) && !IsInherited(m)
  {
    if m in ModelsOf(entries, j) {
      var e :| e in entries && e.jobId == j && !IsInherited(e.model) && e.model == m;
      assert OfModel(j, m)(e);
    }
  }

  lemma JobsSelected(entries: seq<Entry>, j: string)
    ensures j in Jobs(entries) <==> Selected(entries, OfJob(j))
  {
    if j in Jobs(entries) {
      var e :| e in entries && e.jobId == j;
      assert OfJob(j)(e);
    }
  }

  lemma RecordIs(entries: seq<Entry>, j: string)
    ensures IsRecordOf(RecordOf(entries, j), j, entries)
  {
    forall m ensures m in RecordOf(entries, j).models <==> Selected(entries, OfModel(j, m)) && !IsInherited(m) {
      ModelsSelected(entries, j, m);
    }
  }

  lemma GroupedGroups(entries: seq<Entry>)
    ensures Groups(Grouped(entries), entries)
  {
    forall j ensures j in Grouped(entries) <==> Selected(entries, OfJob(j)) {
      JobsSelected(entries, j);
    }
    forall j | j in Grouped(entries) ensures IsRecordOf(Grouped(entries)[j], j, entries) {
      RecordIs(entries, j);
    }
  }

  /** What the report makes of the accepted lines, as a function: None when it throws. */
  function Outcome(accepted: seq<Accepted>): Option<Totals> {
    if Throws(accepted) then None else Some(Grouped(Counted(accepted)))
  }

  lemma OutcomeIsUnique(outcome: Option<Totals>, accepted: seq<Accepted>)
    ensures IsOutcome(outcome, accepted) <==> outcome == Outcome(accepted)
  {
    GroupedGroups(Counted(accepted));
    if IsOutcome(outcome, accepted) && outcome.Some? {
      SameTotals(outcome.value, Grouped(Counted(accepted)), Counted(accepted), Counted(accepted));
    }
  }

  /** No line is counted on Object.prototype itself. */
  ghost predicate LeavesPrototypeClean(accepted: seq<Accepted>) {
    forall a :: a in accepted ==> !IsProto(a.model)
  }

  function CleanEntry(): Accepted -> Option<Entry> {
    a => Some(EntryOf(a, CLEAN))
  }

  ghost predicate HasInheritedJob(accepted: seq<Accepted>) {
    exists a :: a in accepted && IsInherited(a.jobId)
  }

  /** Everything that a line of that model can leave behind. */
  const TAINTED: Prototype := Prototype(true, true, true)

  /** The line counts the same whatever has been left on Object.prototype. */
  predicate IsSteady(a: Accepted) {
    && !Taints(TAINTED, a.jobId) && !Taints(TAINTED, a.model)
    && EntryOf(a, TAINTED) == EntryOf(a, CLEAN)
  }

  ghost predicate IsUndisturbed(accepted: seq<Accepted>) {
    LeavesPrototypeClean(accepted) || forall a :: a in accepted ==> IsSteady(a)
  }

  lemma SteadyEntry(a: Accepted, p: Prototype)
    requires IsSteady(a)
    ensures EntryOf(a, p) == EntryOf(a, CLEAN) && !Taints(p, a.jobId) && !Taints(p, a.model)
  {
  }

  /** Then every line adds the same wherever it stands, and only an inherited job throws. */
  lemma {:induction false} UndisturbedCounting(accepted: seq<Accepted>)
    requires IsUndisturbed(accepted)
    ensures LeavesPrototypeClean(accepted) ==> PrototypeAfter(accepted) == CLEAN
    ensures Counted(accepted) == FilterMap(accepted, CleanEntry())
    ensures Throws(accepted) <==> HasInheritedJob(accepted)
  {
    if accepted == [] {
    } else {
      var before, a := accepted[..|accepted| - 1], accepted[|accepted| - 1];
      assert accepted == before + [a];
      UndisturbedCounting(before);
      CountedPush(before, a);
      FilterMapPush(before, a, CleanEntry());
      if !LeavesPrototypeClean(accepted) {
        SteadyEntry(a, PrototypeAfter(before));
      }
      assert Fails(before, a) <==> IsInherited(a.jobId);
    }
  }

  /** An accepted line whose job is an inherited name always makes the report throw. */
  lemma InheritedJobThrows(before: seq<Accepted>, a: Accepted, after: seq<Accepted>)
    requires IsInherited(a.jobId)
    ensures Outcome(before + [a] + after) == None
  {
    CountedPush(before, a);
    ThrowsForGood(before + [a], after);
  }

  lemma SomeInheritedJobThrows(accepted: seq<Accepted>)
    requires HasInheritedJob(accepted)
    ensures Outcome(accepted) == None
  {
    var a :| a in accepted && IsInherited(a.jobId);
    var i :| 0 <= i < |accepted| && accepted[i] == a;
    InheritedJobThrows(accepted[..i], a, accepted[i + 1..]);
    SplitAround(accepted, i);
  }

  lemma SameMembers(accepted: seq<Accepted>, other: seq<Accepted>)
    requires multiset(accepted) == multiset(other)
    ensures forall a :: a in accepted <==> a in other
  {
    assert forall a :: a in accepted <==> a in multiset(accepted);
    assert forall a :: a in other <==> a in multiset(other);
  }

  lemma UndisturbedInAnyOrder(accepted: seq<Accepted>, other: seq<Accepted>)
    requires multiset(accepted) == multiset(other) && IsUndisturbed(accepted) && !HasInheritedJob(accepted)
    ensures Outcome(accepted) == Outcome(other)
  {
    SameMembers(accepted, other);
    UndisturbedCounting(accepted);
    UndisturbedCounting(other);
    FilterMapPermutes(accepted, other, CleanEntry());
    GroupedGroups(Counted(accepted));
    GroupedGroups(Counted(other));
    SameTotals(Grouped(Counted(accepted)), Grouped(Counted(other)), Counted(accepted), Counted(other));
  }

  /** The order of accepted lines does not matter. */
  lemma AcceptedInAnyOrder(accepted: seq<Accepted>, other: seq<Accepted>)
    requires multiset(accepted) == multiset(other) && (IsUndisturbed(accepted) || HasInheritedJob(accepted))
    ensures Outcome(accepted) == Outcome(other)
  {
    if HasInheritedJob(accepted) {
      SameMembers(accepted, other);
      SomeInheritedJobThrows(accepted);
      SomeInheritedJobThrows(other);
    } else {
      UndisturbedInAnyOrder(accepted, other);
    }
  }

  /** Reordering the files, or the lines of each file, changes neither whether the report throws
      nor its totals, as long as no accepted line has the model `__proto__`, or all of them are
      steady, or some has an inherited job. */
  lemma OrderDoesNotMatter(files: seq<seq<Line>>, moved: seq<seq<Line>>, files': seq<seq<Line>>, window: Window,
                           outcome: Option<Totals>, outcome': Option<Totals>)
    requires multiset(files) == multiset(moved)
    requires |moved| == |files'| && forall f :: 0 <= f < |moved| ==> multiset(moved[f]) == multiset(files'[f])
    requires IsUndisturbed(AcceptedLines(window, Flatten(files)))
             || HasInheritedJob(AcceptedLines(window, Flatten(files)))
    requires IsOutcome(outcome, AcceptedLines(window, Flatten(files)))
    requires IsOutcome(outcome', AcceptedLines(window, Flatten(files')))
    ensures outcome == outcome'
  {
    FlattenPermutes(files, moved);
    FlattenPermutedParts(moved, files');
    FilterMapPermutes(Flatten(files), Flatten(files'), AcceptedOf(window));
    AcceptedInAnyOrder(AcceptedLines(window, Flatten(files)), AcceptedLines(window, Flatten(files')));
    OutcomeIsUnique(outcome, AcceptedLines(window, Flatten(files)));
    OutcomeIsUnique(outcome', AcceptedLines(window, Flatten(files')));
  }

  /** A line of the job whose model is called `runs`. */
  function RunsLine(jobId: string): Accepted {
    Accepted(jobId, "runs", None)
  }

  lemma FirstLine(a: Accepted)
    ensures Counted([a]) == [EntryOf(a, CLEAN)] && PrototypeAfter([a]) == PrototypeAfterOne(CLEAN, a)
    ensures Throws([a]) <==> IsInherited(a.jobId)
  {
    var none: seq<Accepted> := [];
    assert none + [a] == [a];
    CountedPush(none, a);
  }

  lemma SecondLine(a: Accepted, b: Accepted)
    ensures Throws([a, b]) <==> Throws([a]) || Fails([a], b)
  {
    assert [a] + [b] == [a, b];
    CountedPush([a], b);
  }

  lemma FailsAfterOne(a: Accepted, b: Accepted)
    ensures Fails([a], b)
            <==> || IsInherited(b.jobId)
                 || (Taints(PrototypeAfterOne(CLEAN, a), b.jobId) && a.jobId != b.jobId)
                 || (Taints(PrototypeAfterOne(CLEAN, a), b.model) && !(a.jobId == b.jobId && a.model == b.model))
  {
    FirstLine(a);
    var e := EntryOf(a, CLEAN);
    assert forall selects: Selection :: Selected([e], selects) <==> selects(e);
  }

  /** After a line with the model `__proto__` such a line throws, and before it does not. */
  lemma ProtoThenRuns(a: Accepted)
    requires IsProto(a.model) && !IsInherited(a.jobId)
    ensures Throws([a, RunsLine(a.jobId)]) && !Throws([RunsLine(a.jobId), a])
  {
    var q := RunsLine(a.jobId);
    FirstLine(a);
    FirstLine(q);
    SecondLine(a, q);
    SecondLine(q, a);
    FailsAfterOne(a, q);
    FailsAfterOne(q, a);
    assert |q.model| != |a.model|;
  }

  lemma InheritedPair(a: Accepted, b: Accepted)
    requires IsInherited(a.jobId)
    ensures Outcome([a, b]) == None && Outcome([b, a]) == None
  {
    InheritedJobThrows([], a, [b]);
    InheritedJobThrows([b], a, []);
    assert [] + [a] + [b] == [a, b];
    assert [b] + [a] + [] == [b, a];
  }

  lemma CleanPair(a: Accepted, b: Accepted)
    requires !IsProto(a.model) && !IsProto(b.model)
    ensures Outcome([a, b]) == Outcome([b, a])
  {
    var s, t := [a, b], [b, a];
    assert multiset(s) == multiset(t);
    AcceptedInAnyOrder(s, t);
  }

  /** A line may change places with every line of another model than `__proto__` exactly when its
      own model is another too, or its job is an inherited name and the report throws anyway. */
  lemma MovesFreelyIff(a: Accepted)
    ensures (forall b: Accepted :: !IsProto(b.model) ==> Outcome([a, b]) == Outcome([b, a]))
            <==> !IsProto(a.model) || IsInherited(a.jobId)
  {
    if !IsProto(a.model) || IsInherited(a.jobId) {
      forall b: Accepted | !IsProto(b.model) ensures Outcome([a, b]) == Outcome([b, a]) {
        if IsInherited(a.jobId) {
          InheritedPair(a, b);
        } else {
          CleanPair(a, b);
        }
      }
    } else {
      ProtoThenRuns(a);
      assert Outcome([a, RunsLine(a.jobId)]) != Outcome([RunsLine(a.jobId), a]);
    }
  }

  /** A line with the job, and the model unless that is `__proto__`, of another one. */
  function Shadow(a: Accepted): Accepted {
    Accepted(a.jobId, if IsProto(a.model) then "model" else a.model, None)
  }

  function Shadows(accepted: seq<Accepted>): seq<Accepted> {
    seq(|accepted|, i requires 0 <= i < |accepted| => Shadow(accepted[i]))
  }

  lemma {:induction false} CountedMeaning(accepted: seq<Accepted>)
    ensures |Counted(accepted)| == |accepted|
    ensures forall i :: 0 <= i < |accepted| ==>
              var e := Counted(accepted)[i];
              e.jobId == accepted[i].jobId && e.model == accepted[i].model && e.counts.runs == 1
  {
    if accepted == [] {
    } else {
      CountedMeaning(accepted[..|accepted| - 1]);
    }
  }

  lemma ShadowCounted(first: seq<Accepted>, a: Accepted)
    requires Shadow(a) in first
    ensures Selected(Counted(first), OfJob(a.jobId))
    ensures !IsProto(a.model) ==> Selected(Counted(first), OfModel(a.jobId, a.model))
  {
    CountedMeaning(first);
    var i :| 0 <= i < |first| && first[i] == Shadow(a);
    var e := Counted(first)[i];
    assert e in Counted(first) && OfJob(a.jobId)(e);
    assert !IsProto(a.model) ==> OfModel(a.jobId, a.model)(e);
  }

  lemma ShadowedDoesNotFail(first: seq<Accepted>, a: Accepted)
    requires Shadow(a) in first && !IsInherited(a.jobId)
    ensures !Fails(first, a)
  {
    ShadowCounted(first, a);
    assert IsProto(a.model) ==> !Taints(PrototypeAfter(first), a.model);
  }

  /** After the shadows of all lines, none of the lines throws. */
  lemma {:induction false} ShadowedRuns(first: seq<Accepted>, accepted: seq<Accepted>)
    requires LeavesPrototypeClean(first) && !HasInheritedJob(first) && !HasInheritedJob(accepted)
    requires forall a :: a in accepted ==> Shadow(a) in first
    ensures !Throws(first + accepted)
  {
    if accepted == [] {
      assert first + accepted == first;
      UndisturbedCounting(first);
    } else {
      var before, a := accepted[..|accepted| - 1], accepted[|accepted| - 1];
      ShadowedRuns(first, before);
      assert first + accepted == (first + before) + [a];
      assert Shadow(a) in first + before;
      ShadowedDoesNotFail(first + before, a);
      CountedPush(first + before, a);
    }
  }

  lemma ShadowIsPlain(accepted: seq<Accepted>, a: Accepted, b: Accepted)
    requires a in accepted && !HasInheritedJob(accepted) && b in [RunsLine(a.jobId)] + Shadows(accepted)
    ensures !IsProto(b.model) && !IsInherited(b.jobId)
  {
    assert |"runs"| != |"__proto__"| && |"model"| != |"__proto__"|;
    if b != RunsLine(a.jobId) {
      var k :| 0 <= k < |accepted| && b == Shadow(accepted[k]);
      assert accepted[k] in accepted;
    }
  }

  lemma AllShadowed(accepted: seq<Accepted>, a: Accepted)
    requires a in accepted && !HasInheritedJob(accepted)
    ensures var more := [RunsLine(a.jobId)] + Shadows(accepted);
            && LeavesPrototypeClean(more) && !HasInheritedJob(more)
            && forall b :: b in accepted ==> Shadow(b) in more
  {
    var shadows := Shadows(accepted);
    var more := [RunsLine(a.jobId)] + shadows;
    forall b | b in accepted ensures Shadow(b) in more {
      var k :| 0 <= k < |accepted| && accepted[k] == b;
      assert shadows[k] == Shadow(b) && more[k + 1] == shadows[k];
    }
    forall b | b in more ensures !IsProto(b.model) && !IsInherited(b.jobId) {
      ShadowIsPlain(accepted, a, b);
    }
  }

  lemma ProtoThenThrows(a: Accepted, tail: seq<Accepted>)
    requires IsProto(a.model) && !IsInherited(a.jobId)
    ensures Outcome([a, RunsLine(a.jobId)] + tail) == None
  {
    ProtoThenRuns(a);
    ThrowsForGood([a, RunsLine(a.jobId)], tail);
  }

  lemma MixedMultiset<T>(s: seq<T>, i: nat, x: T, t: seq<T>)
    requires i < |s|
    ensures multiset([s[i], x] + (Without(s, i) + t)) == multiset(s + ([x] + t))
  {
    WithoutMultiset(s, i);
    assert [s[i], x] + (Without(s, i) + t) == [s[i]] + [x] + Without(s, i) + t;
  }

  /** A log with a line of the model `__proto__` can be mixed with other lines in two orders of which
      only one throws. */
  lemma MixedOrders(accepted: seq<Accepted>) returns (more: seq<Accepted>, other: seq<Accepted>)
    requires !LeavesPrototypeClean(accepted) && !HasInheritedJob(accepted)
    ensures LeavesPrototypeClean(more) && multiset(other) == multiset(accepted + more)
    ensures Outcome(other) == None && Outcome(more + accepted) != None
  {
    var i :| 0 <= i < |accepted| && IsProto(accepted[i].model);
    var a, shadows := accepted[i], Shadows(accepted);
    more, other := [RunsLine(a.jobId)] + shadows, [a, RunsLine(a.jobId)] + (Without(accepted, i) + shadows);
    AllShadowed(accepted, a);
    ShadowedRuns(more, accepted);
    ProtoThenThrows(a, Without(accepted, i) + shadows);
    MixedMultiset(accepted, i, RunsLine(a.jobId), shadows);
  }

  /** Whatever lines of other models are added to the log, all orders of all its lines have one
      outcome, exactly when the log itself has no line of the model `__proto__`, or has one with an
      inherited job and throws anyway. */
  lemma OrderNeverMattersIff(accepted: seq<Accepted>)
    ensures (forall more, other :: LeavesPrototypeClean(more) && multiset(other) == multiset(accepted + more) ==>
               Outcome(other) == Outcome(accepted + more))
            <==> LeavesPrototypeClean(accepted) || HasInheritedJob(accepted)
  {
    if LeavesPrototypeClean(accepted) || HasInheritedJob(accepted) {
      forall more, other | LeavesPrototypeClean(more) && multiset(other) == multiset(accepted + more)
        ensures Outcome(other) == Outcome(accepted + more)
      {
        AcceptedInAnyOrder(accepted + more, other);
      }
    } else {
      var more, other := MixedOrders(accepted);
      assert multiset(more + accepted) == multiset(accepted + more);
      assert Outcome(other) != Outcome(accepted + more) || Outcome(more + accepted) != Outcome(accepted + more);
    }
  }

  // ---------- conservation ----------

  predicate Distinct(names: seq<string>) {
    forall i, k :: 0 <= i < k < |names| ==> names[i] != names[k]
  }

  function AmongModels(jobId: string, names: seq<string>): Selection {
    (e: Entry) => e.jobId == jobId && e.model in names
  }

  function AmongJobs(names: seq<string>): Selection {
    (e: Entry) => e.jobId in names
  }

  /** The sum of the model records of a job, taken in the order of the names. */
  function SumModels(models: map<string, ModelTotals>, names: seq<string>): Counts
    requires forall m :: m in names ==> m in models
  {
    if names == [] then ZERO
    else SumModels(models, names[..|names| - 1]).Plus(models[names[|names| - 1]].counts)
  }

  function SumJobs(totals: Totals, names: seq<string>): Counts
    requires forall j :: j in names ==> j in totals
  {
    if names == [] then ZERO
    else SumJobs(totals, names[..|names| - 1]).Plus(totals[names[|names| - 1]].counts)
  }

  /** An entry is in `all` when it is in one of p and q, and never in both. */
  predicate Splits(e: Entry, all: Selection, p: Selection, q: Selection) {
    if all(e) then p(e) != q(e) else !p(e) && !q(e)
  }

  lemma {:induction false} UnionPush(entries: seq<Entry>, e: Entry, all: Selection, p: Selection, q: Selection,
                                     sp: Counts, sq: Counts)
    requires Splits(e, all, p, q)
    requires sp == Sum(entries, p) && sq == Sum(entries, q) && Sum(entries, all) == sp.Plus(sq)
    ensures Sum(entries + [e], all) == Sum(entries + [e], p).Plus(Sum(entries + [e], q))
  {
    var all', p', q' := Sum(entries + [e], all), Sum(entries + [e], p), Sum(entries + [e], q);
    SumPush(entries, e, all);
    SumPush(entries, e, p);
    SumPush(entries, e, q);
    PlusMoves(sp, sq, e.counts);
    if p(e) {
      assert all' == sp.Plus(sq).Plus(e.counts) && p' == sp.Plus(e.counts) && q' == sq;
    } else if q(e) {
      assert all' == sp.Plus(sq).Plus(e.counts) && p' == sp && q' == sq.Plus(e.counts);
    } else {
      assert all' == sp.Plus(sq) && p' == sp && q' == sq;
    }
  }

  lemma {:induction false} SumUnion(entries: seq<Entry>, all: Selection, p: Selection, q: Selection)
    requires forall e :: e in entries ==> Splits(e, all, p, q)
    ensures Sum(entries, all) == Sum(entries, p).Plus(Sum(entries, q))
  {
    if entries == [] {
      SumNothing(all);
      SumNothing(p);
      SumNothing(q);
      PlusZero(ZERO);
    } else {
      var before, e := entries[..|entries| - 1], entries[|entries| - 1];
      assert entries == before + [e];
      SumUnion(before, all, p, q);
      UnionPush(before, e, all, p, q, Sum(before, p), Sum(before, q));
    }
  }

  lemma AmongOneMore(entries: seq<Entry>, j: string, before: seq<string>, m: string)
    requires m !in before
    ensures Sum(entries, AmongModels(j, before + [m]))
            == Sum(entries, AmongModels(j, before)).Plus(Sum(entries, OfModel(j, m)))
  {
    SumUnion(entries, AmongModels(j, before + [m]), AmongModels(j, before), OfModel(j, m));
  }

  lemma SumModelsPush(models: map<string, ModelTotals>, before: seq<string>, m: string)
    requires forall n :: n in before + [m] ==> n in models
    requires forall n :: n in before ==> n in models
    ensures m in models && SumModels(models, before + [m]) == SumModels(models, before).Plus(models[m].counts)
  {
    assert (before + [m])[..|before|] == before;
    assert m in before + [m];
  }

  lemma {:induction false} SumAmongModels(job: JobTotals, entries: seq<Entry>, j: string, names: seq<string>)
    requires IsRecordOf(job, j, entries) && Distinct(names) && forall m :: m in names ==> m in job.models
    ensures SumModels(job.models, names) == Sum(entries, AmongModels(j, names))
  {
    if names == [] {
      SumNone(entries, AmongModels(j, names));
    } else {
      var before, m := names[..|names| - 1], names[|names| - 1];
      assert names == before + [m];
      SumAmongModels(job, entries, j, before);
      SumModelsPush(job.models, before, m);
      AmongOneMore(entries, j, before, m);
    }
  }

  lemma AmongOneMoreJob(entries: seq<Entry>, before: seq<string>, j: string)
    requires j !in before
    ensures Sum(entries, AmongJobs(before + [j])) == Sum(entries, AmongJobs(before)).Plus(Sum(entries, OfJob(j)))
  {
    SumUnion(entries, AmongJobs(before + [j]), AmongJobs(before), OfJob(j));
  }

  lemma SumJobsPush(totals: Totals, before: seq<string>, j: string)
    requires forall n :: n in before + [j] ==> n in totals
    requires forall n :: n in before ==> n in totals
    ensures j in totals && SumJobs(totals, before + [j]) == SumJobs(totals, before).Plus(totals[j].counts)
  {
    assert (before + [j])[..|before|] == before;
    assert j in before + [j];
  }

  lemma {:induction false} SumAmongJobs(totals: Totals, entries: seq<Entry>, names: seq<string>)
    requires Groups(totals, entries) && Distinct(names) && forall j :: j in names ==> j in totals
    ensures SumJobs(totals, names) == Sum(entries, AmongJobs(names))
  {
    if names == [] {
      SumNone(entries, AmongJobs(names));
    } else {
      var before, j := names[..|names| - 1], names[|names| - 1];
      assert names == before + [j];
      SumAmongJobs(totals, entries, before);
      SumJobsPush(totals, before, j);
      AmongOneMoreJob(entries, before, j);
    }
  }

  function Lost(jobId: string): Selection {
    (e: Entry) => e.jobId == jobId && IsInherited(e.model)
  }

  lemma {:induction false} OneRunEach(entries: seq<Entry>, selects: Selection)
    requires forall e :: e in entries ==> e.counts.runs == 1 && selects(e)
    ensures Sum(entries, selects).runs == |entries|
  {
    if entries == [] {
    } else {
      assert entries[|entries| - 1] in entries;
      OneRunEach(entries[..|entries| - 1], selects);
    }
  }

  lemma {:induction false} SomeRun(entries: seq<Entry>, selects: Selection)
    requires forall e :: e in entries ==> e.counts.runs == 1
    ensures Sum(entries, selects).runs == 0 <==> !Selected(entries, selects)
  {
    if entries == [] {
    } else {
      var before, e := entries[..|entries| - 1], entries[|entries| - 1];
      assert entries == before + [e];
      SomeRun(before, selects);
      SumPush(before, e, selects);
    }
  }

  /** Some accepted line of the job has an inherited name as its model. */
  ghost predicate LosesModel(accepted: seq<Accepted>, j: string) {
    exists a :: a in accepted && a.jobId == j && IsInherited(a.model)
  }

  lemma LostIff(accepted: seq<Accepted>, j: string)
    ensures Selected(Counted(accepted), Lost(j)) <==> LosesModel(accepted, j)
  {
    var entries := Counted(accepted);
    CountedMeaning(accepted);
    if Selected(entries, Lost(j)) {
      var e :| e in entries && Lost(j)(e);
      var i :| 0 <= i < |entries| && entries[i] == e;
      assert accepted[i] in accepted;
    }
    if LosesModel(accepted, j) {
      var a :| a in accepted && a.jobId == j && IsInherited(a.model);
      var i :| 0 <= i < |accepted| && accepted[i] == a;
      assert entries[i] in entries && Lost(j)(entries[i]);
    }
  }

  /** The counts of a job are the sums over its models, listed in any order, and what was counted
      for inherited names. */
  lemma ModelsAndLost(totals: Totals, entries: seq<Entry>, j: string, names: seq<string>)
    requires Groups(totals, entries) && j in totals && Distinct(names)
    requires forall m :: m in names <==> m in totals[j].models
    ensures totals[j].counts == SumModels(totals[j].models, names).Plus(Sum(entries, Lost(j)))
  {
    SumAmongModels(totals[j], entries, j, names);
    forall e | e in entries ensures Splits(e, OfJob(j), AmongModels(j, names), Lost(j)) {
      if e.jobId == j {
        assert OfModel(j, e.model)(e);
        assert Selected(entries, OfModel(j, e.model));
      }
    }
    SumUnion(entries, OfJob(j), AmongModels(j, names), Lost(j));
  }

  /** A job's counts are the sums over its models, listed in any order, exactly when no accepted
      line of the job has an inherited name as its model. */
  lemma ModelsAddUpIff(totals: Totals, accepted: seq<Accepted>, j: string, names: seq<string>)
    requires IsOutcome(Some(totals), accepted) && j in totals && Distinct(names)
    requires forall m :: m in names <==> m in totals[j].models
    ensures SumModels(totals[j].models, names) == totals[j].counts <==> !LosesModel(accepted, j)
  {
    var entries := Counted(accepted);
    ModelsAndLost(totals, entries, j, names);
    LostIff(accepted, j);
    CountedMeaning(accepted);
    SomeRun(entries, Lost(j));
    if !LosesModel(accepted, j) {
      SumNone(entries, Lost(j));
      PlusZero(SumModels(totals[j].models, names));
    }
  }

  lemma SumOfOne(e: Entry, selects: Selection)
    requires selects(e)
    ensures Sum([e], selects) == ZERO.Plus(e.counts)
  {
    var none: seq<Entry> := [];
    assert none + [e] == [e];
    SumPush(none, e, selects);
    SumNothing(selects);
  }

  lemma RecordOfLostEntry(e: Entry)
    requires IsInherited(e.model)
    ensures RecordOf([e], e.jobId) == JobTotals(e.jobId, ZERO.Plus(e.counts), map[])
  {
    SumOfOne(e, OfJob(e.jobId));
    assert ModelsOf([e], e.jobId) == {};
    assert RecordOf([e], e.jobId).models == map[];
  }

  lemma GroupedLostEntry(e: Entry)
    requires IsInherited(e.model)
    ensures e.jobId in Grouped([e]) && Grouped([e])[e.jobId] == JobTotals(e.jobId, ZERO.Plus(e.counts), map[])
  {
    assert e in [e] && e.jobId in Jobs([e]);
    RecordOfLostEntry(e);
  }

  lemma OutcomeOfOne(a: Accepted)
    requires !IsInherited(a.jobId)
    ensures Outcome([a]) == Some(Grouped([EntryOf(a, CLEAN)]))
  {
    FirstLine(a);
  }

  /** One line with such a model is already an input where they do not add up: its job has a run
      and no model. */
  lemma InheritedModelIsLost(a: Accepted)
    requires !IsInherited(a.jobId) && IsInherited(a.model)
    ensures Outcome([a]).Some? && a.jobId in Outcome([a]).value
    ensures var job := Outcome([a]).value[a.jobId]; job.counts.runs == 1 && job.models == map[]
  {
    OutcomeOfOne(a);
    GroupedLostEntry(EntryOf(a, CLEAN));
  }

  lemma ConstructorIsLost(jobId: string, usage: Option<Usage>)
    requires !IsInherited(jobId)
    ensures var o := Outcome([Accepted(jobId, "constructor", usage)]);
            o.Some? && jobId in o.value && o.value[jobId].counts.runs == 1 && o.value[jobId].models == map[]
  {
    InheritedModelIsLost(Accepted(jobId, "constructor", usage));
  }

  /** The runs of all jobs add up to the number of accepted lines. */
  lemma RunsAddUp(totals: Totals, accepted: seq<Accepted>, names: seq<string>)
    requires IsOutcome(Some(totals), accepted) && Distinct(names) && forall j :: j in names <==> j in totals
    ensures SumJobs(totals, names).runs == |accepted|
  {
    var entries := Counted(accepted);
    SumAmongJobs(totals, entries, names);
    CountedMeaning(accepted);
    forall e | e in entries ensures e.counts.runs == 1 && AmongJobs(names)(e) {
      assert OfJob(e.jobId)(e);
      assert Selected(entries, OfJob(e.jobId));
    }
    OneRunEach(entries, AmongJobs(names));
  }
}

/** The usage report in plain numbers: which lines count, and what the totals add up
    (scripts/cron_usage_report.ts:73-92, 148-215). */
module CronUsageMeaning {
  import opened Text
  import opened Sequences
  import opened CronUsage
  import opened CronUsageTotals

  // ---------- which lines count ----------

  /** A line counts when it is a finished run with a time in the window and a job id that is not
      blank, and the job and the model are those asked for, if any; the model is trimmed, and a
      missing or blank one is unknown. */
  lemma AcceptedLine(window: Window, line: Line, a: Accepted)
    ensures AcceptedOf(window)(line) == Some(a) <==>
            && line.Record? && line.finished && line.jobId == Some(a.jobId) && Trim(a.jobId) != ""
            && line.ts.Some? && window.fromMs <= line.ts.value && line.ts.value <= window.toMs
            && a.usage == line.usage
            && (a.model == if line.model.Some? && Trim(line.model.value) != "" then Trim(line.model.value)
                           else "<unknown>")
            && (window.jobId == "" || a.jobId == window.jobId)
            && (window.model == "" || a.model == window.model)
  {
  }

  // ---------- what the totals add up ----------

  /** The whole part of a count, 0 for one that is missing or negative. */
  function Whole(f: Field): nat {
    if f.Number? && f.value >= 1.0 then f.value.Floor else 0
  }

  predicate HasNone(f: Field) {
    f == Absent || f == Null
  }

  /** Some count is given; a null output is enough. */
  predicate HasCounts(a: Accepted) {
    a.usage.Some? && !(HasNone(a.usage.value.total) && HasNone(a.usage.value.input) && a.usage.value.output == Absent)
  }

  /** The counts are what a log can hold. */
  predicate IsPlain(a: Accepted) {
    a.usage.Some? ==> a.usage.value.input != NotANumber && a.usage.value.output != NotANumber
                      && a.usage.value.total != NotANumber
  }

  function InputOf(a: Accepted): nat {
    if HasCounts(a) then Whole(a.usage.value.input) else 0
  }

  function OutputOf(a: Accepted): nat {
    if HasCounts(a) then Whole(a.usage.value.output) else 0
  }

  /** The total that is given, or else input plus output. */
  function TotalTokens(a: Accepted): nat {
    if !HasCounts(a) then 0
    else if HasNone(a.usage.value.total) then InputOf(a) + OutputOf(a)
    else Whole(a.usage.value.total)
  }

  datatype Numbers = Numbers(runs: nat, input: nat, output: nat, total: nat, missing: nat) {
    function AsCounts(): Counts {
      Counts(runs, Exact(input), Exact(output), Exact(total), missing)
    }

    function Plus(n: Numbers): Numbers {
      Numbers(runs + n.runs, input + n.input, output + n.output, total + n.total, missing + n.missing)
    }
  }

  /** What one line adds. */
  function NumbersOf(a: Accepted): Numbers {
    Numbers(1, InputOf(a), OutputOf(a), TotalTokens(a), if HasCounts(a) then 0 else 1)
  }

  /** A line of the job, and of the model if one is asked for. */
  predicate Picks(a: Accepted, j: string, m: Option<string>) {
    a.jobId == j && (m.None? || a.model == m.value)
  }

  /** The sums over the lines of a job, or of a model in it. */
  function Summed(accepted: seq<Accepted>, j: string, m: Option<string>, numbers: Accepted -> Numbers): Numbers {
    if accepted == [] then Numbers(0, 0, 0, 0, 0)
    else
      var s, a := Summed(accepted[..|accepted| - 1], j, m, numbers), accepted[|accepted| - 1];
      if Picks(a, j, m) then s.Plus(numbers(a)) else s
  }

  function SelectionOf(j: string, m: Option<string>): Selection {
    if m.None? then OfJob(j) else OfModel(j, m.value)
  }

  lemma WholeIs(f: Field, none: nat)
    requires f != NotANumber
    ensures Tokens(f, Exact(none)) == Exact(if HasNone(f) then none else Whole(f))
  {
  }

  lemma CleanUsage(usage: Option<Usage>)
    ensures ReadUsage(usage, CLEAN) == usage
  {
  }

  lemma CountsFrom(usage: Usage, input: nat, output: nat, total: nat)
    requires HasUsage(Some(usage))
    requires Tokens(usage.input, Exact(0)) == Exact(input) && Tokens(usage.output, Exact(0)) == Exact(output)
    requires Tokens(usage.total, Exact(input + output)) == Exact(total)
    ensures CountsOf(Some(usage)) == Counts(1, Exact(input), Exact(output), Exact(total), 0)
  {
  }

  lemma CountsAre(a: Accepted)
    requires IsPlain(a)
    ensures CountsOf(a.usage) == NumbersOf(a).AsCounts()
  {
    if HasCounts(a) {
      var u, input, output := a.usage.value, InputOf(a), OutputOf(a);
      WholeIs(u.input, 0);
      WholeIs(u.output, 0);
      WholeIs(u.total, input + output);
      CountsFrom(u, input, output, TotalTokens(a));
    }
  }

  lemma PlusIs(s: Numbers, n: Numbers)
    ensures s.AsCounts().Plus(n.AsCounts()) == s.Plus(n).AsCounts()
  {
  }

  /** The entry adds the numbers to the job and the model of the line. */
  predicate IsEntryOf(e: Entry, a: Accepted, numbers: Accepted -> Numbers) {
    e.jobId == a.jobId && e.model == a.model && e.counts == numbers(a).AsCounts()
  }

  ghost predicate AreEntriesOf(entries: seq<Entry>, accepted: seq<Accepted>, numbers: Accepted -> Numbers) {
    |entries| == |accepted| && forall i :: 0 <= i < |entries| ==> IsEntryOf(entries[i], accepted[i], numbers)
  }

  lemma EntriesPush(entries: seq<Entry>, accepted: seq<Accepted>, e: Entry, a: Accepted, numbers: Accepted -> Numbers)
    requires AreEntriesOf(entries, accepted, numbers) && IsEntryOf(e, a, numbers)
    ensures AreEntriesOf(entries + [e], accepted + [a], numbers)
  {
  }

  lemma {:induction false} SumIs(entries: seq<Entry>, accepted: seq<Accepted>, j: string, m: Option<string>,
                                 numbers: Accepted -> Numbers)
    requires AreEntriesOf(entries, accepted, numbers)
    ensures Sum(entries, SelectionOf(j, m)) == Summed(accepted, j, m, numbers).AsCounts()
  {
    if entries == [] {
    } else {
      var n := |entries| - 1;
      SumIs(entries[..n], accepted[..n], j, m, numbers);
      assert IsEntryOf(entries[n], accepted[n], numbers);
      PlusIs(Summed(accepted[..n], j, m, numbers), numbers(accepted[n]));
    }
  }

  lemma EntryIs(a: Accepted)
    requires IsPlain(a)
    ensures IsEntryOf(EntryOf(a, CLEAN), a, NumbersOf)
  {
    CleanUsage(a.usage);
    CountsAre(a);
  }

  lemma {:induction false} CountedAre(accepted: seq<Accepted>)
    requires LeavesPrototypeClean(accepted) && forall a :: a in accepted ==> IsPlain(a)
    ensures AreEntriesOf(Counted(accepted), accepted, NumbersOf)
  {
    if accepted == [] {
    } else {
      var before, a := accepted[..|accepted| - 1], accepted[|accepted| - 1];
      assert accepted == before + [a];
      CountedAre(before);
      UndisturbedCounting(before);
      CountedPush(before, a);
      EntryIs(a);
      EntriesPush(Counted(before), before, EntryOf(a, CLEAN), a, NumbersOf);
    }
  }

  ghost predicate HasLine(accepted: seq<Accepted>, j: string, m: Option<string>) {
    exists a :: a in accepted && Picks(a, j, m)
  }

  lemma SelectedIff(accepted: seq<Accepted>, j: string, m: Option<string>)
    ensures Selected(Counted(accepted), SelectionOf(j, m)) <==> HasLine(accepted, j, m)
  {
    var entries := Counted(accepted);
    CountedMeaning(accepted);
    if Selected(entries, SelectionOf(j, m)) {
      var e :| e in entries && SelectionOf(j, m)(e);
      var i :| 0 <= i < |entries| && entries[i] == e;
      assert accepted[i] in accepted && Picks(accepted[i], j, m);
    }
    if HasLine(accepted, j, m) {
      var a :| a in accepted && Picks(a, j, m);
      var i :| 0 <= i < |accepted| && accepted[i] == a;
      assert entries[i] in entries && SelectionOf(j, m)(entries[i]);
    }
  }

  lemma GroupIs(accepted: seq<Accepted>, j: string, m: Option<string>)
    requires LeavesPrototypeClean(accepted) && forall a :: a in accepted ==> IsPlain(a)
    ensures Selected(Counted(accepted), SelectionOf(j, m)) <==> HasLine(accepted, j, m)
    ensures Sum(Counted(accepted), SelectionOf(j, m)) == Summed(accepted, j, m, NumbersOf).AsCounts()
  {
    CountedAre(accepted);
    SelectedIff(accepted, j, m);
    SumIs(Counted(accepted), accepted, j, m, NumbersOf);
  }

  /** The report has a record for every job with an accepted line and in it one for every model with
      one, other than inherited names; each has the numbers of lines, of lines without usage, and the
      sums of the token counts over its lines. */
  lemma TotalsAre(totals: Totals, accepted: seq<Accepted>, j: string)
    requires IsOutcome(Some(totals), accepted) && LeavesPrototypeClean(accepted)
    requires forall a :: a in accepted ==> IsPlain(a)
    ensures j in totals <==> HasLine(accepted, j, None)
    ensures j in totals ==>
              && totals[j].jobId == j && totals[j].counts == Summed(accepted, j, None, NumbersOf).AsCounts()
              && forall m :: m in totals[j].models <==> !IsInherited(m) && HasLine(accepted, j, Some(m))
    ensures j in totals ==> forall m :: m in totals[j].models ==>
              totals[j].models[m] == ModelTotals(m, Summed(accepted, j, Some(m), NumbersOf).AsCounts())
  {
    GroupIs(accepted, j, None);
    forall m: string
      ensures Selected(Counted(accepted), OfModel(j, m)) <==> HasLine(accepted, j, Some(m))
      ensures Sum(Counted(accepted), OfModel(j, m)) == Summed(accepted, j, Some(m), NumbersOf).AsCounts()
    {
      GroupIs(accepted, j, Some(m));
    }
  }

  // ---------- after a model of the name `__proto__` ----------

  /** The names that counting such a line makes every object have, as NaN. */
  function LeftBehind(a: Accepted): set<string> {
    if HasCounts(a) then {"runs", "input_tokens", "output_tokens", "total_tokens"}
    else {"runs", "missingUsageRuns"}
  }

  lemma LeftBehindIs(a: Accepted, name: string)
    requires IsProto(a.model)
    ensures Taints(PrototypeAfterOne(CLEAN, a), name) <==> name in LeftBehind(a)
  {
  }

  lemma LeftBehindIsNotProto(a: Accepted)
    ensures forall name :: name in LeftBehind(a) ==> !IsProto(name)
  {
    assert |"runs"| != |"__proto__"| && |"input_tokens"| != |"__proto__"| && |"output_tokens"| != |"__proto__"|;
    assert |"total_tokens"| != |"__proto__"| && |"missingUsageRuns"| != |"__proto__"|;
  }

  /** The next line throws exactly when its job is an inherited name, or its job or its model is one of
      those names and is not the same as before. */
  lemma NextLineThrowsIff(a: Accepted, b: Accepted)
    requires IsProto(a.model) && !IsInherited(a.jobId)
    ensures Outcome([a, b]) == None <==>
            || IsInherited(b.jobId)
            || (b.jobId in LeftBehind(a) && b.jobId != a.jobId)
            || b.model in LeftBehind(a)
  {
    FirstLine(a);
    SecondLine(a, b);
    FailsAfterOne(a, b);
    var p := PrototypeAfterOne(CLEAN, a);
    LeftBehindIs(a, b.jobId);
    LeftBehindIs(a, b.model);
    LeftBehindIsNotProto(a);
  }

  /** And a token count it leaves out is not a number. */
  lemma LeftOutIsNaN(a: Accepted, b: Accepted)
    requires IsProto(a.model) && HasCounts(a) && b.usage.Some?
    ensures var c := EntryOf(b, PrototypeAfter([a])).counts;
            && c.missing == 0
            && (b.usage.value.input == Absent ==> c.input == NaN)
            && (b.usage.value.output == Absent ==> c.output == NaN)
            && (b.usage.value.total == Absent ==> c.total == NaN)
  {
    FirstLine(a);
  }
}

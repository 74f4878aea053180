/** The cron usage report: adding up the token usage of run logs by job and model
    (scripts/cron_usage_report.ts:73-92, 113-215). */
module CronUsage {
  import opened Text
  import opened Sequences

  // ---------- the logs ----------

  /** A token count of a usage record: missing, null or a number.  A log holds no NaN; a missing
      count reads as NaN once Object.prototype has a property of its name. */
  datatype Field = Absent | Null | Number(value: real) | NotANumber

  datatype Usage = Usage(input: Field, output: Field, total: Field)

  /** A line of a log after JSON parsing: anything but an object is unreadable. */
  datatype Line =
    | Unreadable
    | Record(finished: bool, ts: Option<real>, jobId: Option<string>, model: Option<string>, usage: Option<Usage>)

  datatype Window = Window(fromMs: real, toMs: real, jobId: string, model: string)

  /** What is used of a line that passes the checks and filters. */
  datatype Accepted = Accepted(jobId: string, model: string, usage: Option<Usage>)

  /** The trimmed model name. */
  function ModelName(model: Option<string>): string {
    if model.None? || Trim(model.value) == "" then "<unknown>" else Trim(model.value)
  }

  /** The checks of safeParseLine and the filters of the loop. */
  predicate Accepts(window: Window, line: Line) {
    && line.Record? && line.finished && line.ts.Some? && line.jobId.Some? && Trim(line.jobId.value) != ""
    && window.fromMs <= line.ts.value <= window.toMs
    && (window.jobId != "" ==> line.jobId.value == window.jobId)
    && (window.model != "" ==> ModelName(line.model) == window.model)
  }

  function AcceptedOf(window: Window): Line -> Option<Accepted> {
    line => if Accepts(window, line) then Some(Accepted(line.jobId.value, ModelName(line.model), line.usage)) else None
  }

  function AcceptedLines(window: Window, lines: seq<Line>): seq<Accepted> {
    FilterMap(lines, AcceptedOf(window))
  }

  // ---------- counts ----------

  datatype Num = Exact(n: nat) | NaN {
    function Plus(other: Num): Num {
      if NaN? || other.NaN? then NaN else Exact(n + other.n)
    }
  }

  datatype Counts = Counts(runs: nat, input: Num, output: Num, total: Num, missing: nat) {
    function Plus(other: Counts): Counts {
      Counts(runs + other.runs, input.Plus(other.input), output.Plus(other.output), total.Plus(other.total),
             missing + other.missing)
    }
  }

  const ZERO: Counts := Counts(0, Exact(0), Exact(0), Exact(0), 0)

  datatype ModelTotals = ModelTotals(model: string, counts: Counts)

  datatype JobTotals = JobTotals(jobId: string, counts: Counts, models: map<string, ModelTotals>)

  type Totals = map<string, JobTotals>

  /** What one accepted line adds. */
  datatype Entry = Entry(jobId: string, model: string, counts: Counts)

  /** `Math.max(0, Math.trunc(f ?? default))` for a default that is such a number already. */
  function Tokens(f: Field, default: Num): Num {
    match f
    case Absent => default
    case Null => default
    case Number(x) => Exact(if x <= 0.0 then 0 else x.Floor)
    case NotANumber => NaN
  }

  predicate IsNullish(f: Field) {
    f.Absent? || f.Null?
  }

  /** `(total ?? input ?? output) !== undefined`. */
  predicate HasUsage(usage: Option<Usage>) {
    usage.Some? && (!IsNullish(usage.value.total) || !IsNullish(usage.value.input) || !usage.value.output.Absent?)
  }

  function CountsOf(usage: Option<Usage>): Counts {
    if !HasUsage(usage) then ZERO.(runs := 1, missing := 1)
    else
      var input, output := Tokens(usage.value.input, Exact(0)), Tokens(usage.value.output, Exact(0));
      Counts(1, input, output, Tokens(usage.value.total, input.Plus(output)), 0)
  }

  /** n is what counts of the field: nothing for none, else the number without its fraction, or 0
      for what is less than 1. */
  predicate IsWholePart(n: Num, f: Field, none: Num) {
    match f
    case Number(x) => n.Exact? && if x < 1.0 then n.n == 0 else n.n as real <= x < n.n as real + 1.0
    case NotANumber => n == NaN
    case _ => n == none
  }

  /** A line counts as one run; it is missing usage exactly when its record has no number and no
      null output, and then adds no tokens.  A total that is not given is input plus output. */
  lemma CountsMeaning(usage: Option<Usage>)
    ensures var c := CountsOf(usage);
            && c.runs == 1 && c.missing <= 1
            && (c.missing == 1 <==>
                  usage.None? || (IsNullish(usage.value.total) && IsNullish(usage.value.input)
                    && usage.value.output.Absent?))
            && (c.missing == 1 ==> c.input == c.output == c.total == Exact(0))
            && (c.missing == 0 ==>
                  && IsWholePart(c.input, usage.value.input, Exact(0))
                  && IsWholePart(c.output, usage.value.output, Exact(0))
                  && IsWholePart(c.total, usage.value.total, c.input.Plus(c.output)))
  {
  }

  // ---------- what lookups inherit ----------

  /** Which properties counting a model named `__proto__` has left on Object.prototype, all NaN:
      the number of runs, that of runs without usage, and the three token counts. */
  datatype Prototype = Prototype(runs: bool, missing: bool, tokens: bool)

  const CLEAN: Prototype := Prototype(false, false, false)

  /** A lookup of the name finds such a NaN, and counting on it throws. */
  predicate Taints(p: Prototype, name: string) {
    || (p.runs && name == "runs") || (p.missing && name == "missingUsageRuns")
    || (p.tokens && (name == "input_tokens" || name == "output_tokens" || name == "total_tokens"))
  }

  function ReadField(f: Field, p: Prototype): Field {
    if f.Absent? && p.tokens then NotANumber else f
  }

  /** The usage as property lookups see it. */
  function ReadUsage(usage: Option<Usage>, p: Prototype): Option<Usage> {
    match usage
    case None => None
    case Some(u) => Some(Usage(ReadField(u.input, p), ReadField(u.output, p), ReadField(u.total, p)))
  }

  function PrototypeAfterOne(p: Prototype, a: Accepted): Prototype {
    if !IsProto(a.model) then p
    else if HasUsage(ReadUsage(a.usage, p)) then p.(runs := true, tokens := true)
    else p.(runs := true, missing := true)
  }

  function PrototypeAfter(accepted: seq<Accepted>): Prototype {
    if accepted == [] then CLEAN
    else PrototypeAfterOne(PrototypeAfter(accepted[..|accepted| - 1]), accepted[|accepted| - 1])
  }

  function EntryOf(a: Accepted, p: Prototype): Entry {
    Entry(a.jobId, a.model, CountsOf(ReadUsage(a.usage, p)))
  }

  /** What the accepted lines add, one after the other. */
  function Counted(accepted: seq<Accepted>): seq<Entry> {
    if accepted == [] then []
    else
      var before := accepted[..|accepted| - 1];
      Counted(before) + [EntryOf(accepted[|accepted| - 1], PrototypeAfter(before))]
  }

  type Selection = Entry -> bool

  function OfJob(jobId: string): Selection {
    (e: Entry) => e.jobId == jobId
  }

  function OfModel(jobId: string, model: string): Selection {
    (e: Entry) => e.jobId == jobId && e.model == model
  }

  predicate Selected(entries: seq<Entry>, selects: Selection) {
    exists e :: e in entries && selects(e)
  }

  /** Counting the line after the others throws: its job is an inherited name, or its job or its
      model is first looked up when Object.prototype has a number of that name. */
  predicate Fails(before: seq<Accepted>, a: Accepted) {
    var p, entries := PrototypeAfter(before), Counted(before);
    || IsInherited(a.jobId)
    || (Taints(p, a.jobId) && !Selected(entries, OfJob(a.jobId)))
    || (Taints(p, a.model) && !Selected(entries, OfModel(a.jobId, a.model)))
  }

  predicate Throws(accepted: seq<Accepted>) {
    accepted != [] &&
    (Throws(accepted[..|accepted| - 1]) || Fails(accepted[..|accepted| - 1], accepted[|accepted| - 1]))
  }

  // ---------- sums over entries ----------

  function Sum(entries: seq<Entry>, selects: Selection): Counts {
    if entries == [] then ZERO
    else
      var before, e := Sum(entries[..|entries| - 1], selects), entries[|entries| - 1];
      if selects(e) then before.Plus(e.counts) else before
  }

  /** The record of a job: the sum of its entries, and for every model that has some of them and
      is not an inherited name one record with the sum of those. */
  ghost predicate IsRecordOf(job: JobTotals, j: string, entries: seq<Entry>) {
    && job.jobId == j && job.counts == Sum(entries, OfJob(j))
    && (forall m :: m in job.models <==> Selected(entries, OfModel(j, m)) && !IsInherited(m))
    && (forall m :: m in job.models ==> job.models[m] == ModelTotals(m, Sum(entries, OfModel(j, m))))
  }

  /** The totals group the entries: one record for every job that has an entry. */
  ghost predicate Groups(totals: Totals, entries: seq<Entry>) {
    && (forall j :: j in totals <==> Selected(entries, OfJob(j)))
    && (forall j :: j in totals ==> IsRecordOf(totals[j], j, entries))
  }

  /** What the report makes of the accepted lines: it throws, or it groups what they add. */
  ghost predicate IsOutcome(outcome: Option<Totals>, accepted: seq<Accepted>) {
    && (outcome.None? <==> Throws(accepted))
    && (outcome.Some? ==> Groups(outcome.value, Counted(accepted)))
  }

  lemma SumPush(entries: seq<Entry>, e: Entry, selects: Selection)
    ensures Sum(entries + [e], selects)
            == if selects(e) then Sum(entries, selects).Plus(e.counts) else Sum(entries, selects)
    ensures Selected(entries + [e], selects) <==> Selected(entries, selects) || selects(e)
  {
  }

  lemma {:induction false} SumNone(entries: seq<Entry>, selects: Selection)
    requires !Selected(entries, selects)
    ensures Sum(entries, selects) == ZERO
  {
    if entries == [] {
    } else {
      assert entries[|entries| - 1] in entries;
      SumNone(entries[..|entries| - 1], selects);
    }
  }

  lemma JobPush(entries: seq<Entry>, e: Entry)
    ensures forall j :: Sum(entries + [e], OfJob(j))
                        == if j == e.jobId then Sum(entries, OfJob(j)).Plus(e.counts) else Sum(entries, OfJob(j))
    ensures forall j :: Selected(entries + [e], OfJob(j)) <==> Selected(entries, OfJob(j)) || j == e.jobId
  {
  }

  lemma ModelPush(entries: seq<Entry>, e: Entry)
    ensures forall j, m :: Sum(entries + [e], OfModel(j, m))
                           == if j == e.jobId && m == e.model then Sum(entries, OfModel(j, m)).Plus(e.counts)
                              else Sum(entries, OfModel(j, m))
    ensures forall j, m :: Selected(entries + [e], OfModel(j, m))
                           <==> Selected(entries, OfModel(j, m)) || (j == e.jobId && m == e.model)
  {
  }

  /** An entry leaves the records of other jobs alone. */
  lemma OtherRecord(job: JobTotals, j: string, entries: seq<Entry>, e: Entry)
    requires IsRecordOf(job, j, entries) && j != e.jobId
    ensures IsRecordOf(job, j, entries + [e])
  {
  }

  lemma NoModelWithoutJob(entries: seq<Entry>, j: string)
    ensures forall m :: Selected(entries, OfModel(j, m)) ==> Selected(entries, OfJob(j))
  {
  }

  lemma NewRecord(entries: seq<Entry>, j: string)
    requires !Selected(entries, OfJob(j))
    ensures IsRecordOf(JobTotals(j, ZERO, map[]), j, entries)
  {
    SumNone(entries, OfJob(j));
    NoModelWithoutJob(entries, j);
  }

  // ---------- the program ----------

  /** The effect of an entry on its job's record; what is counted for an inherited model goes to
      an object outside the report. */
  method CountInJob(job: JobTotals, e: Entry, ghost entries: seq<Entry>) returns (job': JobTotals)
    requires IsRecordOf(job, e.jobId, entries)
    ensures IsRecordOf(job', e.jobId, entries + [e])
  {
    job' := job.(counts := job.counts.Plus(e.counts));
    if !IsInherited(e.model) {
      var model := if e.model in job.models then job.models[e.model] else ModelTotals(e.model, ZERO);
      model := model.(counts := model.counts.Plus(e.counts));
      job' := job'.(models := job.models[e.model := model]);
    }
    JobPush(entries, e);
    ModelPush(entries, e);
    if !Selected(entries, OfModel(e.jobId, e.model)) {
      SumNone(entries, OfModel(e.jobId, e.model));
    }
  }

  /** The effect of one accepted line on the totals. */
  method CountEntry(totals: Totals, e: Entry, ghost entries: seq<Entry>) returns (totals': Totals)
    requires Groups(totals, entries)
    ensures Groups(totals', entries + [e])
  {
    var job := if e.jobId in totals then totals[e.jobId] else JobTotals(e.jobId, ZERO, map[]);
    if e.jobId !in totals {
      NewRecord(entries, e.jobId);
    }
    job := CountInJob(job, e, entries);
    totals' := totals[e.jobId := job];
    JobPush(entries, e);
    forall j | j in totals' ensures IsRecordOf(totals'[j], j, entries + [e]) {
      if j != e.jobId {
        OtherRecord(totals[j], j, entries, e);
      }
    }
  }

  lemma CountedPush(accepted: seq<Accepted>, a: Accepted)
    ensures Counted(accepted + [a]) == Counted(accepted) + [EntryOf(a, PrototypeAfter(accepted))]
    ensures PrototypeAfter(accepted + [a]) == PrototypeAfterOne(PrototypeAfter(accepted), a)
    ensures Throws(accepted + [a]) <==> Throws(accepted) || Fails(accepted, a)
  {
    assert (accepted + [a])[..|accepted|] == accepted;
  }

  predicate IsStored(totals: Totals, j: string, m: string) {
    j in totals && m in totals[j].models
  }

  lemma TaintedIsNotInherited(p: Prototype, name: string)
    ensures Taints(p, name) ==> !IsInherited(name)
  {
  }

  /** A tainted model name is found exactly when the job has counted it before. */
  lemma StoredIff(totals: Totals, entries: seq<Entry>, j: string, m: string, p: Prototype)
    requires Groups(totals, entries)
    ensures Taints(p, m) ==> (IsStored(totals, j, m) <==> Selected(entries, OfModel(j, m)))
  {
    TaintedIsNotInherited(p, m);
    NoModelWithoutJob(entries, j);
  }

  /** One accepted line, when nothing has thrown before. */
  method CountAccepted(totals: Totals, prototype: Prototype, a: Accepted, ghost accepted: seq<Accepted>)
    returns (outcome: Option<Totals>, prototype': Prototype)
    requires IsOutcome(Some(totals), accepted) && prototype == PrototypeAfter(accepted)
    ensures IsOutcome(outcome, accepted + [a]) && prototype' == PrototypeAfter(accepted + [a])
  {
    CountedPush(accepted, a);
    prototype' := PrototypeAfterOne(prototype, a);
    if IsInherited(a.jobId) || (Taints(prototype, a.jobId) && a.jobId !in totals) {
      return None, prototype';
    }
    StoredIff(totals, Counted(accepted), a.jobId, a.model, prototype);
    if Taints(prototype, a.model) && !IsStored(totals, a.jobId, a.model) {
      return None, prototype';
    }
    var totals' := CountEntry(totals, EntryOf(a, prototype), Counted(accepted));
    outcome := Some(totals');
  }

  /** One line: it is counted or skipped. */
  method CountLine(totals: Totals, prototype: Prototype, line: Line, window: Window, ghost lines: seq<Line>)
    returns (outcome: Option<Totals>, prototype': Prototype)
    requires IsOutcome(Some(totals), AcceptedLines(window, lines))
    requires prototype == PrototypeAfter(AcceptedLines(window, lines))
    ensures IsOutcome(outcome, AcceptedLines(window, lines + [line]))
    ensures prototype' == PrototypeAfter(AcceptedLines(window, lines + [line]))
  {
    var accepted := AcceptedOf(window)(line);
    ghost var before := AcceptedLines(window, lines);
    FilterMapPush(lines, line, AcceptedOf(window));
    assert before + [] == before;
    if accepted.None? {
      return Some(totals), prototype;
    }
    outcome, prototype' := CountAccepted(totals, prototype, accepted.value, before);
  }

  lemma {:induction false} ThrowsForGood(accepted: seq<Accepted>, more: seq<Accepted>)
    requires Throws(accepted)
    ensures Throws(accepted + more)
    decreases |more|
  {
    if more == [] {
      assert accepted + more == accepted;
    } else {
      var init, a := more[..|more| - 1], more[|more| - 1];
      ThrowsForGood(accepted, init);
      CountedPush(accepted + init, a);
      assert accepted + more == (accepted + init) + [a];
    }
  }

  lemma MoreLines(window: Window, seen: seq<Line>, more: seq<Line>)
    ensures Throws(AcceptedLines(window, seen)) ==> Throws(AcceptedLines(window, seen + more))
  {
    FilterMapConcat(seen, more, AcceptedOf(window));
    if Throws(AcceptedLines(window, seen)) {
      ThrowsForGood(AcceptedLines(window, seen), AcceptedLines(window, more));
    }
  }

  /** The loop over the lines of one file. */
  method CountFile(totals: Totals, prototype: Prototype, file: seq<Line>, window: Window, ghost seen: seq<Line>)
    returns (outcome: Option<Totals>, prototype': Prototype)
    requires IsOutcome(Some(totals), AcceptedLines(window, seen))
    requires prototype == PrototypeAfter(AcceptedLines(window, seen))
    ensures IsOutcome(outcome, AcceptedLines(window, seen + file))
    ensures outcome.Some? ==> prototype' == PrototypeAfter(AcceptedLines(window, seen + file))
  {
    outcome, prototype' := Some(totals), prototype;
    assert seen + file[..0] == seen;
    for i := 0 to |file|
      invariant outcome.Some? && IsOutcome(outcome, AcceptedLines(window, seen + file[..i]))
      invariant prototype' == PrototypeAfter(AcceptedLines(window, seen + file[..i]))
    {
      ghost var before := seen + file[..i];
      assert seen + file[..i + 1] == before + [file[i]];
      outcome, prototype' := CountLine(outcome.value, prototype', file[i], window, before);
      if outcome.None? {
        MoreLines(window, before + [file[i]], file[i + 1..]);
        assert (before + [file[i]]) + file[i + 1..] == seen + file;
        return;
      }
    }
    assert file[..|file|] == file;
  }

  /** The aggregation loop over the files. */
  method Aggregate(files: seq<seq<Line>>, window: Window) returns (outcome: Option<Totals>)
    ensures IsOutcome(outcome, AcceptedLines(window, Flatten(files)))
  {
    var prototype := CLEAN;
    outcome := Some(map[]);
    for f := 0 to |files|
      invariant outcome.Some? && IsOutcome(outcome, AcceptedLines(window, Flatten(files[..f])))
      invariant prototype == PrototypeAfter(AcceptedLines(window, Flatten(files[..f])))
    {
      ghost var seen := Flatten(files[..f]);
      outcome, prototype := CountFile(outcome.value, prototype, files[f], window, seen);
      FlattenPush(files[..f], files[f]);
      assert files[..f + 1] == files[..f] + [files[f]];
      if outcome.None? {
        FlattenConcat(files[..f + 1], files[f + 1..]);
        assert files[..f + 1] + files[f + 1..] == files;
        MoreLines(window, Flatten(files[..f + 1]), Flatten(files[f + 1..]));
        return;
      }
    }
    assert files[..|files|] == files;
  }
}

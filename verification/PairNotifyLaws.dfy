/** The pairing notifier in terms of its commands, requests and times (extensions/device-pair/notify.ts):
    who is told about what, and which subscription is in force. */
module PairNotifyLaws {
  import opened Text
  import opened PairNotify
  import opened PairNotifyRuns

  // ---------- what is read ----------

  /** n is r without its fraction. */
  predicate IsTruncated(n: int, r: real) {
    if r >= 0.0 then n as real <= r < n as real + 1.0 else n as real - 1.0 < r <= n as real
  }

  predicate HasText(fields: map<string, Json>, name: string) {
    name in fields && fields[name].Str? && Trim(fields[name].s) != ""
  }

  /** A stored entry is a subscriber exactly when it is an object with a chat that is not blank. Its
      texts are trimmed and its numbers whole; it is a one-shot only when it says so, and one without
      a time counts as added now. */
  lemma StoredSubscriber(item: Json, now: int)
    ensures ReadSubscriber(item, now).Some? <==> item.Obj? && HasText(item.fields, "to")
    ensures ReadSubscriber(item, now).Some? ==>
              var s, f := ReadSubscriber(item, now).value, item.fields;
              && s.target.to == Trim(f["to"].s)
              && s.target.accountId == (if HasText(f, "accountId") then Some(Trim(f["accountId"].s)) else None)
              && (s.mode == Once <==> "mode" in f && f["mode"] == Str("once"))
              && (if "addedAtMs" in f && f["addedAtMs"].Number? then IsTruncated(s.addedAtMs, f["addedAtMs"].value)
                  else s.addedAtMs == now)
    ensures ReadSubscriber(item, now).Some? ==>
              var t, f := ReadSubscriber(item, now).value.target.threadId, item.fields;
              && (t.TextThread? <==> HasText(f, "messageThreadId"))
              && (t.TextThread? ==> t.text == Trim(f["messageThreadId"].s))
              && (t.NumThread? <==> "messageThreadId" in f && f["messageThreadId"].Number?)
              && (t.NumThread? ==> IsTruncated(t.n, f["messageThreadId"].value))
  {
  }

  /** A stored mark is read exactly when its id is not blank and its time positive. */
  lemma StoredMarks(fields: map<string, Json>, id: string)
    ensures id in ReadNotified(fields) <==>
            id in fields && Trim(id) != "" && !IsProto(id) && fields[id].Number? && fields[id].value > 0.0
    ensures id in ReadNotified(fields) ==> IsTruncated(ReadNotified(fields)[id], fields[id].value)
  {
  }

  // ---------- one poll ----------

  /** The request is from the time t or later; a time of less than a millisecond counts as none. */
  predicate IsFrom(r: Request, t: int) {
    r.ts.Some? && r.ts.value >= 1.0 && r.ts.value >= t as real
  }

  /** Persistent subscribers want every request, one-shots those from when they were added on. */
  predicate Wants(s: Subscriber, r: Request) {
    s.mode == Persistent || IsFrom(r, s.addedAtMs)
  }

  lemma WantsIff(s: Subscriber, r: Request)
    ensures ShouldNotify(s, r) <==> Wants(s, r)
  {
  }

  /** The poll takes a pending request for one it has told about: there is a mark of at most 24 hours
      that is not 0, or none of that age and every object inherits the id. */
  predicate IsToldOf(st: State, id: string, now: int) {
    if id in st.notified && now - st.notified[id] <= 86_400_000 then st.notified[id] != 0 else IsInherited(id)
  }

  /** A send of the request to someone who wants it goes through. */
  ghost predicate GetsThrough(subscribers: seq<Subscriber>, r: Request, i: nat, oracle: Oracle) {
    exists j :: 0 <= j < |subscribers| && Wants(subscribers[j], r) && oracle(i, j)
  }

  /** The i-th request is new to the poll when its turn comes: not told of before, nor earlier in the
      poll under the same id. */
  ghost predicate IsNews(st: State, pending: seq<Request>, now: int, oracle: Oracle, i: nat)
    requires i < |pending|
  {
    && !IsToldOf(st, pending[i].id, now)
    && forall k :: 0 <= k < i && pending[k].id == pending[i].id ==> !GetsThrough(st.subscribers, pending[k], k, oracle)
  }

  lemma GetsThroughIff(subscribers: seq<Subscriber>, r: Request, i: nat, oracle: Oracle)
    ensures Reaches(subscribers, r, i, oracle) <==> GetsThrough(subscribers, r, i, oracle)
  {
    forall j | 0 <= j < |subscribers| ensures ShouldNotify(subscribers[j], r) <==> Wants(subscribers[j], r) {
      WantsIff(subscribers[j], r);
    }
  }

  lemma ToldIff(st: State, pending: seq<Request>, now: int, i: nat)
    requires i < |pending|
    ensures IsSeen(Pruned(st.notified, PendingIds(pending), now), pending[i].id) <==> IsToldOf(st, pending[i].id, now)
  {
    assert pending[i] in pending;
  }

  lemma NewsIff(st: State, pending: seq<Request>, now: int, oracle: Oracle, i: nat)
    requires i < |pending|
    ensures var start := Pruned(st.notified, PendingIds(pending), now);
            !IsSeen(start, pending[i].id) && !ReachedBefore(st.subscribers, pending, oracle, i, pending[i].id)
            <==> IsNews(st, pending, now, oracle, i)
  {
    ToldIff(st, pending, now, i);
    forall k: nat | k < i
      ensures Reaches(st.subscribers, pending[k], k, oracle) <==> GetsThrough(st.subscribers, pending[k], k, oracle)
    {
      GetsThroughIff(st.subscribers, pending[k], k, oracle);
    }
  }

  /** A poll sends every request that is news to every subscriber that wants it, once, and nothing
      else. */
  lemma PollSendsNews(st: State, pending: seq<Request>, now: int, oracle: Oracle)
    requires now > 0
    ensures NoRepeats(Polled(st, pending, now, oracle).log)
    ensures forall s :: s in Polled(st, pending, now, oracle).log <==>
              && s.request < |pending| && s.subscriber < |st.subscribers| && s.ok == oracle(s.request, s.subscriber)
              && Wants(st.subscribers[s.subscriber], pending[s.request])
              && IsNews(st, pending, now, oracle, s.request)
  {
    PollSends(st, pending, now, oracle);
    forall s: Send | s.request < |pending| && s.subscriber < |st.subscribers|
      ensures IsDue(st.subscribers, pending, oracle, Pruned(st.notified, PendingIds(pending), now), s.request,
                    s.subscriber)
              <==> Wants(st.subscribers[s.subscriber], pending[s.request])
                   && IsNews(st, pending, now, oracle, s.request)
    {
      WantsIff(st.subscribers[s.subscriber], pending[s.request]);
      NewsIff(st, pending, now, oracle, s.request);
    }
  }

  lemma PendingIff(pending: seq<Request>, id: string)
    ensures id in PendingIds(pending) <==> exists r :: r in pending && r.id == id
    ensures id in PendingIds(pending) <==> exists i: nat :: i < |pending| && pending[i].id == id
  {
    if id in PendingIds(pending) {
      var r :| r in pending && r.id == id;
      var i: nat :| i < |pending| && pending[i] == r;
    }
  }

  /** After it a request is marked with the time of the poll when it was news and got through, and
      other marks stay exactly as long as their request is pending and they are at most 24 hours old. */
  lemma PollMarks(st: State, pending: seq<Request>, now: int, oracle: Oracle, id: string)
    requires now > 0
    ensures var marks := Polled(st, pending, now, oracle).state.notified;
            var told := !IsToldOf(st, id, now) && exists i: nat ::
                          i < |pending| && pending[i].id == id && GetsThrough(st.subscribers, pending[i], i, oracle);
            var stays := id in st.notified && now - st.notified[id] <= 86_400_000
                         && exists r :: r in pending && r.id == id;
            && (id in marks <==> told || stays)
            && (id in marks ==> marks[id] == if told then now else st.notified[id])
  {
    var start := Pruned(st.notified, PendingIds(pending), now);
    MarksExactly(st.subscribers, pending, now, oracle, start, |pending|);
    PendingIff(pending, id);
    if i: nat :| i < |pending| && pending[i].id == id {
      ToldIff(st, pending, now, i);
    }
    forall i: nat | i < |pending|
      ensures Reaches(st.subscribers, pending[i], i, oracle) <==> GetsThrough(st.subscribers, pending[i], i, oracle)
    {
      GetsThroughIff(st.subscribers, pending[i], i, oracle);
    }
  }

  // ---------- which subscription is in force ----------

  /** Whenever the file is read, the subscriber is there. */
  ghost predicate Keeps(file: File, s: Subscriber) {
    forall now :: s in ReadState(file, now).subscribers
  }

  /** No subscriber with the key of the command has its mode yet. */
  ghost predicate TakesEffect(st: State, command: Command) {
    forall s :: s in st.subscribers && Key(s.target) == Key(command.target) ==> s.mode != CommandMode(command)
  }

  /** `on` and `once` store the target with the time of the command, unless some subscriber with the
      key has the mode already. */
  lemma CommandStores(command: Command, st: State, now: int)
    requires !command.Off?
    requires TakesEffect(st, command)
    ensures Subscriber(command.target, CommandMode(command), now) in Applied(command, st, now).0.subscribers
    ensures Applied(command, st, now).1
  {
    var i := FindKey(st.subscribers, Key(command.target));
    var next := Subscriber(command.target, CommandMode(command), now);
    if i < |st.subscribers| {
      assert st.subscribers[i] in st.subscribers;
      assert Applied(command, st, now).0.subscribers[i] == next;
    } else {
      assert Applied(command, st, now).0.subscribers[i] == next;
    }
  }

  /** Repeating a command in the mode that is stored changes nothing, not even the time. */
  lemma RepeatChangesNothing(command: Command, st: State, now: int, s: Subscriber)
    requires !command.Off? && KeysDistinct(st.subscribers) && s in st.subscribers
    requires Key(s.target) == Key(command.target) && s.mode == CommandMode(command)
    ensures Applied(command, st, now) == (st, false)
  {
    var j :| 0 <= j < |st.subscribers| && st.subscribers[j] == s;
    var i := FindKey(st.subscribers, Key(command.target));
    assert i == j;
  }

  lemma {:induction false} RereadHas(subscribers: seq<Subscriber>, s: Subscriber)
    requires s in subscribers && IsNormal(s.target)
    ensures s in Reread(subscribers)
  {
    var last := subscribers[|subscribers| - 1];
    if s == last {
      assert s.(target := RereadTarget(s.target)) == s;
    } else {
      assert s in subscribers[..|subscribers| - 1];
      RereadHas(subscribers[..|subscribers| - 1], s);
    }
  }

  lemma WrittenIsKept(file: File, e: Event, s: Subscriber)
    requires Writes(file, e) && s in After(file, e).subscribers && IsNormal(s.target)
    ensures Keeps(StepFile(file, e), s)
  {
    RereadHas(After(file, e).subscribers, s);
    forall now ensures s in ReadState(StepFile(file, e), now).subscribers {
      WriteThenRead(After(file, e), now);
    }
  }

  /** A command that is not refused puts its subscription in force. */
  lemma SubscriptionBegins(file: File, command: Command, now: int)
    requires !command.Off? && IsNormal(command.target)
    requires TakesEffect(ReadState(file, now), command)
    ensures Keeps(StepFile(file, Issue(command, now)), Subscriber(command.target, CommandMode(command), now))
  {
    CommandStores(command, ReadState(file, now), now);
    WrittenIsKept(file, Issue(command, now), Subscriber(command.target, CommandMode(command), now));
  }

  /** The event is no command for the key, and no send to a one-shot with the key goes through. */
  ghost predicate LeavesKey(file: File, e: Event, key: string) {
    (e.Issue? ==> Key(e.command.target) != key) && !SendsTo(file, e, key, true)
  }

  lemma OtherCommandKeeps(st: State, command: Command, now: int, s: Subscriber)
    requires s in st.subscribers && Key(s.target) != Key(command.target)
    ensures s in Applied(command, st, now).0.subscribers
  {
    CommandEffect(command, st, now);
    var key := Key(command.target);
    WithoutKeysLength(st.subscribers, {key});
    WithoutKeysLength(Applied(command, st, now).0.subscribers, {key});
  }

  lemma ReachedIsSentTo(file: File, e: Event, key: string)
    requires e.Tick?
    ensures key in OneShotDelivered(ReadState(file, e.now).subscribers, Log(file, e)) ==> SendsTo(file, e, key, true)
  {
    var subscribers, log := ReadState(file, e.now).subscribers, Log(file, e);
    KeyReachedIff(subscribers, log, key);
    if KeyReached(subscribers, log, key) {
      var i :| 0 <= i < |subscribers| && subscribers[i].mode == Once && WasReached(log, i)
               && Key(subscribers[i].target) == key;
      var s :| s in log && s.ok && s.subscriber == i;
    }
  }

  lemma PollKeeps(file: File, e: Event, s: Subscriber)
    requires e.Tick? && s in ReadState(file, e.now).subscribers && !SendsTo(file, e, Key(s.target), true)
    ensures s in After(file, e).subscribers
  {
    var subscribers, log := ReadState(file, e.now).subscribers, Log(file, e);
    WithoutKeysLength(subscribers, OneShotDelivered(subscribers, log));
    ReachedIsSentTo(file, e, Key(s.target));
  }

  lemma AfterKeeps(file: File, e: Event, s: Subscriber)
    requires s in ReadState(file, e.now).subscribers && LeavesKey(file, e, Key(s.target))
    ensures s in After(file, e).subscribers
  {
    if e.Issue? {
      OtherCommandKeeps(ReadState(file, e.now), e.command, e.now, s);
    } else {
      PollKeeps(file, e, s);
    }
  }

  lemma SubscriptionStays(file: File, e: Event, s: Subscriber)
    requires Keeps(file, s) && IsNormal(s.target) && LeavesKey(file, e, Key(s.target))
    ensures Keeps(StepFile(file, e), s)
  {
    assert s in ReadState(file, e.now).subscribers;
    if Writes(file, e) {
      AfterKeeps(file, e, s);
      WrittenIsKept(file, e, s);
    }
  }

  lemma {:induction false} SubscriptionHolds(files: seq<File>, events: seq<Event>, a: nat, b: nat)
    requires IsRun(files, events) && a < b <= |events| && events[a].Issue? && !events[a].command.Off?
    requires IsNormal(events[a].command.target)
    requires TakesEffect(ReadState(files[a], events[a].now), events[a].command)
    requires forall k :: a < k < b ==> LeavesKey(files[k], events[k], Key(events[a].command.target))
    ensures Keeps(files[b], Subscriber(events[a].command.target, CommandMode(events[a].command), events[a].now))
  {
    if b == a + 1 {
      SubscriptionBegins(files[a], events[a].command, events[a].now);
    } else {
      SubscriptionHolds(files, events, a, b - 1);
      SubscriptionStays(files[b - 1], events[b - 1],
                        Subscriber(events[a].command.target, CommandMode(events[a].command), events[a].now));
    }
  }

  /** Over runs: from the command that stored it, and until another command for its key or a send to
      a one-shot with it, a subscription makes every poll send its chat the requests that are news,
      all of them after `on`, and after `once` those from the time of the command on. */
  lemma SubscriberIsSent(files: seq<File>, events: seq<Event>, a: nat, b: nat) returns (j: nat)
    requires IsRun(files, events) && a < b < |events| && events[a].Issue? && !events[a].command.Off?
    requires IsNormal(events[a].command.target)
    requires TakesEffect(ReadState(files[a], events[a].now), events[a].command)
    requires forall k :: a < k < b ==> LeavesKey(files[k], events[k], Key(events[a].command.target))
    requires events[b].Tick?
    ensures var st := ReadState(files[b], events[b].now);
            j < |st.subscribers| && st.subscribers[j].target == events[a].command.target
    ensures var st, e := ReadState(files[b], events[b].now), events[b];
            forall i: nat :: i < |e.pending| ==>
              (Send(i, j, e.oracle(i, j)) in Log(files[b], e) <==>
               (events[a].command.Arm? ==> IsFrom(e.pending[i], events[a].now))
               && IsNews(st, e.pending, e.now, e.oracle, i))
  {
    var s := Subscriber(events[a].command.target, CommandMode(events[a].command), events[a].now);
    var st, e := ReadState(files[b], events[b].now), events[b];
    SubscriptionHolds(files, events, a, b);
    assert s in st.subscribers;
    j :| 0 <= j < |st.subscribers| && st.subscribers[j] == s;
    PollSendsNews(st, e.pending, e.now, e.oracle);
  }

  lemma SomeMember<T>(s: seq<T>)
    ensures s == [] || exists x :: x in s
  {
    assert s == [] || s[0] in s;
  }

  /** For instance a one-shot armed at 5000 is not sent a request from the time 1000. */
  lemma OldRequestWaits(t: Target, r: Request, oracle: Oracle, id: string)
    requires IsNormal(t) && r == Request(id, Some(1000.0)) && !IsInherited(id)
    ensures var f := StepFile(None, Issue(Arm(t), 5000));
            Log(f, Tick([r], 6000, oracle)) == []
  {
    var f := StepFile(None, Issue(Arm(t), 5000));
    var e := Tick([r], 6000, oracle);
    WriteThenRead(After(None, Issue(Arm(t), 5000)), 6000);
    RereadNormal([Subscriber(t, Once, 5000)]);
    assert After(None, Issue(Arm(t), 5000)).subscribers == [Subscriber(t, Once, 5000)];
    PollSendsNews(ReadState(f, 6000), [r], 6000, oracle);
    SomeMember(Log(f, e));
  }
}

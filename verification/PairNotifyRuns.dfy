/** What the pairing notifier guarantees: exactly which messages one poll sends, and what
    holds over whole runs of polls and commands, with any sends failing. */
module PairNotifyRuns {
  import opened Text
  import opened PairNotify
  import Sequences

  // ---------- one poll ----------

  /** Some subscriber is due the i-th request and a send to it goes through. */
  ghost predicate Reaches(subscribers: seq<Subscriber>, r: Request, i: nat, oracle: Oracle) {
    exists j :: 0 <= j < |subscribers| && ShouldNotify(subscribers[j], r) && oracle(i, j)
  }

  /** One of the first k pending requests carries the id and reaches someone. */
  ghost predicate ReachedBefore(subscribers: seq<Subscriber>, pending: seq<Request>, oracle: Oracle, k: nat, id: string)
    requires k <= |pending|
  {
    exists i :: 0 <= i < k && pending[i].id == id && Reaches(subscribers, pending[i], i, oracle)
  }

  /** The poll sends the i-th request to the j-th subscriber: it is due, and the id is
      neither marked nor already delivered in this poll. */
  ghost predicate IsDue(subscribers: seq<Subscriber>, pending: seq<Request>, oracle: Oracle,
                        start: map<string, int>, i: nat, j: nat)
  {
    && i < |pending| && j < |subscribers|
    && ShouldNotify(subscribers[j], pending[i])
    && !IsSeen(start, pending[i].id)
    && !ReachedBefore(subscribers, pending, oracle, i, pending[i].id)
  }

  ghost predicate NoRepeats(log: seq<Send>) {
    forall a, b :: 0 <= a < b < |log| ==> log[a].request != log[b].request || log[a].subscriber != log[b].subscriber
  }

  lemma {:induction false} RequestSendsExactly(subscribers: seq<Subscriber>, r: Request, i: nat, oracle: Oracle, n: nat)
    requires n <= |subscribers|
    ensures forall s :: s in RequestSends(subscribers, r, i, oracle, n) <==>
              s.request == i && s.subscriber < n && ShouldNotify(subscribers[s.subscriber], r)
                && s.ok == oracle(i, s.subscriber)
    ensures NoRepeats(RequestSends(subscribers, r, i, oracle, n))
  {
    if n == 0 {
    } else {
      RequestSendsExactly(subscribers, r, i, oracle, n - 1);
    }
  }

  lemma AnyOkIsReaches(subscribers: seq<Subscriber>, r: Request, i: nat, oracle: Oracle)
    ensures AnyOk(RequestSends(subscribers, r, i, oracle, |subscribers|)) <==> Reaches(subscribers, r, i, oracle)
  {
    var sends := RequestSends(subscribers, r, i, oracle, |subscribers|);
    RequestSendsExactly(subscribers, r, i, oracle, |subscribers|);
    if Reaches(subscribers, r, i, oracle) {
      var j :| 0 <= j < |subscribers| && ShouldNotify(subscribers[j], r) && oracle(i, j);
      assert Send(i, j, true) in sends;
    }
  }

  /** The marks after the first k requests. */
  lemma {:induction false} MarksExactly(subscribers: seq<Subscriber>, pending: seq<Request>, now: int, oracle: Oracle,
                                        start: map<string, int>, k: nat)
    requires k <= |pending| && now > 0
    ensures var n := Delivered(subscribers, pending, now, oracle, start, k).notified;
            forall id :: var marked := !IsSeen(start, id) && ReachedBefore(subscribers, pending, oracle, k, id);
                         && (id in n <==> id in start || marked)
                         && (id in n ==> n[id] == if marked then now else start[id])
  {
    if k == 0 {
    } else {
      MarksExactly(subscribers, pending, now, oracle, start, k - 1);
      AnyOkIsReaches(subscribers, pending[k - 1], k - 1, oracle);
      forall id ensures ReachedBefore(subscribers, pending, oracle, k, id) <==>
                          ReachedBefore(subscribers, pending, oracle, k - 1, id)
                          || (pending[k - 1].id == id && Reaches(subscribers, pending[k - 1], k - 1, oracle))
      {
      }
    }
  }

  /** What counts as seen after the first k requests. */
  lemma SeenSoFar(subscribers: seq<Subscriber>, pending: seq<Request>, now: int, oracle: Oracle,
                  start: map<string, int>, k: nat, id: string)
    requires k <= |pending| && now > 0
    ensures IsSeen(Delivered(subscribers, pending, now, oracle, start, k).notified, id)
            <==> IsSeen(start, id) || ReachedBefore(subscribers, pending, oracle, k, id)
  {
    MarksExactly(subscribers, pending, now, oracle, start, k);
  }

  lemma LogPush(subscribers: seq<Subscriber>, pending: seq<Request>, now: int, oracle: Oracle,
                start: map<string, int>, k: nat)
    requires k < |pending| && now > 0
    ensures var p := Delivered(subscribers, pending, now, oracle, start, k);
            var q := Delivered(subscribers, pending, now, oracle, start, k + 1);
            forall s :: s in q.log <==>
                          s in p.log || (!IsSeen(p.notified, pending[k].id)
                                         && s in RequestSends(subscribers, pending[k], k, oracle, |subscribers|))
  {
  }

  /** The sends made for the first k requests. */
  lemma {:induction false} LogExactly(subscribers: seq<Subscriber>, pending: seq<Request>, now: int, oracle: Oracle,
                                      start: map<string, int>, k: nat)
    requires k <= |pending| && now > 0
    ensures forall s :: s in Delivered(subscribers, pending, now, oracle, start, k).log <==>
              s.request < k && IsDue(subscribers, pending, oracle, start, s.request, s.subscriber)
              && s.ok == oracle(s.request, s.subscriber)
  {
    if k == 0 {
    } else {
      LogExactly(subscribers, pending, now, oracle, start, k - 1);
      LogPush(subscribers, pending, now, oracle, start, k - 1);
      SeenSoFar(subscribers, pending, now, oracle, start, k - 1, pending[k - 1].id);
      RequestSendsExactly(subscribers, pending[k - 1], k - 1, oracle, |subscribers|);
    }
  }

  lemma NoRepeatsConcat(a: seq<Send>, b: seq<Send>, k: nat)
    requires NoRepeats(a) && NoRepeats(b)
    requires (forall s :: s in a ==> s.request < k) && (forall s :: s in b ==> s.request == k)
    ensures NoRepeats(a + b)
  {
  }

  lemma {:induction false} LogHasNoRepeats(subscribers: seq<Subscriber>, pending: seq<Request>, now: int,
                                           oracle: Oracle, start: map<string, int>, k: nat)
    requires k <= |pending| && now > 0
    ensures NoRepeats(Delivered(subscribers, pending, now, oracle, start, k).log)
  {
    if k == 0 {
    } else {
      LogHasNoRepeats(subscribers, pending, now, oracle, start, k - 1);
      LogExactly(subscribers, pending, now, oracle, start, k - 1);
      RequestSendsExactly(subscribers, pending[k - 1], k - 1, oracle, |subscribers|);
      NoRepeatsConcat(Delivered(subscribers, pending, now, oracle, start, k - 1).log,
                      RequestSends(subscribers, pending[k - 1], k - 1, oracle, |subscribers|), k - 1);
    }
  }

  /** Which messages one poll sends: each due pair of request and subscriber exactly once. */
  lemma PollSends(st: State, pending: seq<Request>, now: int, oracle: Oracle)
    requires now > 0
    ensures var log := Polled(st, pending, now, oracle).log;
            && NoRepeats(log)
            && forall s :: s in log <==>
                 IsDue(st.subscribers, pending, oracle, Pruned(st.notified, PendingIds(pending), now), s.request,
                   s.subscriber)
                 && s.ok == oracle(s.request, s.subscriber)
  {
    var start := Pruned(st.notified, PendingIds(pending), now);
    LogExactly(st.subscribers, pending, now, oracle, start, |pending|);
    LogHasNoRepeats(st.subscribers, pending, now, oracle, start, |pending|);
  }

  /** A one-shot subscriber is only sent requests created at or after it was armed. */
  lemma OneShotGetsNewRequests(st: State, pending: seq<Request>, now: int, oracle: Oracle, s: Send)
    requires now > 0 && s in Polled(st, pending, now, oracle).log
    ensures s.request < |pending| && s.subscriber < |st.subscribers|
    ensures st.subscribers[s.subscriber].mode == Once ==>
              pending[s.request].ts.Some?
              && Truncate(pending[s.request].ts.value) >= st.subscribers[s.subscriber].addedAtMs
              && Truncate(pending[s.request].ts.value) > 0
  {
    PollSends(st, pending, now, oracle);
  }

  ghost predicate WasReached(log: seq<Send>, j: nat) {
    exists s :: s in log && s.ok && s.subscriber == j
  }

  ghost predicate KeysDistinct(subscribers: seq<Subscriber>) {
    forall i, j :: 0 <= i < j < |subscribers| ==> Key(subscribers[i].target) != Key(subscribers[j].target)
  }

  /** Some send to a one-shot subscriber with the key went through. */
  ghost predicate KeyReached(subscribers: seq<Subscriber>, log: seq<Send>, key: string) {
    exists i :: 0 <= i < |subscribers| && subscribers[i].mode == Once && WasReached(log, i)
      && Key(subscribers[i].target) == key
  }

  /** The first n subscribers without those whose key was reached. */
  ghost function Unreached(subscribers: seq<Subscriber>, log: seq<Send>, n: nat): seq<Subscriber>
    requires n <= |subscribers|
  {
    if n == 0 then []
    else Unreached(subscribers, log, n - 1)
         + if KeyReached(subscribers, log, Key(subscribers[n - 1].target)) then [] else [subscribers[n - 1]]
  }

  lemma KeyReachedIff(subscribers: seq<Subscriber>, log: seq<Send>, key: string)
    ensures key in OneShotDelivered(subscribers, log) <==> KeyReached(subscribers, log, key)
  {
    if KeyReached(subscribers, log, key) {
      var i :| 0 <= i < |subscribers| && subscribers[i].mode == Once && WasReached(log, i)
          && Key(subscribers[i].target) == key;
      var s :| s in log && s.ok && s.subscriber == i;
      var k :| 0 <= k < |log| && log[k] == s;
    }
    if key in OneShotDelivered(subscribers, log) {
      var k :| 0 <= k < |log| && log[k].ok && log[k].subscriber < |subscribers|
               && subscribers[log[k].subscriber].mode == Once && Key(subscribers[log[k].subscriber].target) == key;
      assert log[k] in log && WasReached(log, log[k].subscriber);
    }
  }

  lemma {:induction false} WithoutKeysIsUnreached(subscribers: seq<Subscriber>, log: seq<Send>, keys: set<string>,
                                                  n: nat)
    requires n <= |subscribers| && forall key :: key in keys <==> KeyReached(subscribers, log, key)
    ensures WithoutKeys(subscribers[..n], keys) == Unreached(subscribers, log, n)
  {
    if n == 0 {
    } else {
      WithoutKeysIsUnreached(subscribers, log, keys, n - 1);
      assert subscribers[..n][..n - 1] == subscribers[..n - 1];
    }
  }

  /** A poll removes exactly the subscribers whose key is that of a one-shot subscriber some send
      reached, and keeps the order of the others. */
  lemma PollRemovesReachedKeys(st: State, pending: seq<Request>, now: int, oracle: Oracle)
    ensures var p := Polled(st, pending, now, oracle);
            p.state.subscribers == Unreached(st.subscribers, p.log, |st.subscribers|)
  {
    var log := Polled(st, pending, now, oracle).log;
    forall key ensures key in OneShotDelivered(st.subscribers, log) <==> KeyReached(st.subscribers, log, key) {
      KeyReachedIff(st.subscribers, log, key);
    }
    WithoutKeysIsUnreached(st.subscribers, log, OneShotDelivered(st.subscribers, log), |st.subscribers|);
    assert st.subscribers[..|st.subscribers|] == st.subscribers;
  }

  /** With distinct keys those are the one-shot subscribers some send reached, and so no persistent
      subscriber is removed. */
  lemma ReachedKeyIsReachedOneShot(subscribers: seq<Subscriber>, log: seq<Send>, j: nat)
    requires KeysDistinct(subscribers) && j < |subscribers|
    ensures KeyReached(subscribers, log, Key(subscribers[j].target))
            <==> subscribers[j].mode == Once && WasReached(log, j)
  {
  }

  lemma {:induction false} WithoutKeysLength(subscribers: seq<Subscriber>, keys: set<string>)
    ensures |WithoutKeys(subscribers, keys)| <= |subscribers|
    ensures |WithoutKeys(subscribers, keys)| == |subscribers| ==> WithoutKeys(subscribers, keys) == subscribers
    ensures forall s :: s in WithoutKeys(subscribers, keys) <==> s in subscribers && Key(s.target) !in keys
  {
    if subscribers == [] {
    } else {
      WithoutKeysLength(subscribers[..|subscribers| - 1], keys);
      assert subscribers == subscribers[..|subscribers| - 1] + [subscribers[|subscribers| - 1]];
    }
  }

  /** A delivered request is marked with the time of the poll, and was not before. */
  lemma DeliveredIsMarked(st: State, pending: seq<Request>, now: int, oracle: Oracle, s: Send)
    requires now > 0 && s in Polled(st, pending, now, oracle).log && s.ok
    ensures s.request < |pending|
    ensures var p, id := Polled(st, pending, now, oracle), pending[s.request].id;
            id in p.state.notified && p.state.notified[id] == now && p.changed
    ensures var id := pending[s.request].id;
            id in st.notified && st.notified[id] > 0 ==> now - st.notified[id] > 86_400_000
    ensures var id := pending[s.request].id; id in st.notified ==> st.notified[id] != now
  {
    var start := Pruned(st.notified, PendingIds(pending), now);
    var p := Polled(st, pending, now, oracle);
    PollSends(st, pending, now, oracle);
    MarksExactly(st.subscribers, pending, now, oracle, start, |pending|);
    var id := pending[s.request].id;
    assert pending[s.request] in pending && id in PendingIds(pending);
    assert Reaches(st.subscribers, pending[s.request], s.request, oracle);
    assert ReachedBefore(st.subscribers, pending, oracle, |pending|, id);
    var k :| 0 <= k < |p.log| && p.log[k] == s;
    assert AnyOk(p.log);
  }

  lemma {:induction false} ReachIsSent(subscribers: seq<Subscriber>, pending: seq<Request>, oracle: Oracle,
                                       start: map<string, int>, log: seq<Send>, id: string, k: nat)
    requires k <= |pending| && !IsSeen(start, id)
    requires forall s :: s in log <==> IsDue(subscribers, pending, oracle, start, s.request, s.subscriber)
                                       && s.ok == oracle(s.request, s.subscriber)
    ensures ReachedBefore(subscribers, pending, oracle, k, id) ==> AnyOk(log)
  {
    if k == 0 {
    } else {
      ReachIsSent(subscribers, pending, oracle, start, log, id, k - 1);
      if pending[k - 1].id == id && Reaches(subscribers, pending[k - 1], k - 1, oracle)
         && !ReachedBefore(subscribers, pending, oracle, k - 1, id)
      {
        var j :| 0 <= j < |subscribers| && ShouldNotify(subscribers[j], pending[k - 1]) && oracle(k - 1, j);
        assert Send(k - 1, j, true) in log;
      }
    }
  }

  lemma NothingSentNothingMarked(st: State, pending: seq<Request>, now: int, oracle: Oracle)
    requires now > 0 && !AnyOk(Polled(st, pending, now, oracle).log)
    ensures Polled(st, pending, now, oracle).state.notified == Pruned(st.notified, PendingIds(pending), now)
  {
    var start := Pruned(st.notified, PendingIds(pending), now);
    MarksExactly(st.subscribers, pending, now, oracle, start, |pending|);
    PollSends(st, pending, now, oracle);
    forall id | !IsSeen(start, id) ensures !ReachedBefore(st.subscribers, pending, oracle, |pending|, id) {
      ReachIsSent(st.subscribers, pending, oracle, start, Polled(st, pending, now, oracle).log, id, |pending|);
    }
    assert forall id :: id in Polled(st, pending, now, oracle).state.notified <==> id in start;
  }

  /** The `changed` flag is exact: the file is rewritten if and only if the state differs. */
  lemma ChangedIsExact(st: State, pending: seq<Request>, now: int, oracle: Oracle)
    requires now > 0
    ensures Polled(st, pending, now, oracle).changed <==> Polled(st, pending, now, oracle).state != st
  {
    var p := Polled(st, pending, now, oracle);
    WithoutKeysLength(st.subscribers, OneShotDelivered(st.subscribers, p.log));
    if AnyOk(p.log) {
      var k :| 0 <= k < |p.log| && p.log[k].ok;
      DeliveredIsMarked(st, pending, now, oracle, p.log[k]);
    } else {
      NothingSentNothingMarked(st, pending, now, oracle);
    }
  }

  // ---------- commands ----------

  lemma CommandChangedIsExact(command: Command, st: State, now: int)
    ensures Applied(command, st, now).1 <==> Applied(command, st, now).0 != st
  {
    var st' := Applied(command, st, now).0;
    if command.Off? && Applied(command, st, now).1 {
      assert |st'.subscribers| == |st.subscribers| - 1;
    }
  }

  function CommandMode(command: Command): Mode {
    if command.On? then Persistent else Once
  }

  function Unless(keys: set<string>): Subscriber -> Option<Subscriber> {
    (s: Subscriber) => if Key(s.target) in keys then None else Some(s)
  }

  lemma {:induction false} WithoutKeysFilters(subscribers: seq<Subscriber>, keys: set<string>)
    ensures WithoutKeys(subscribers, keys) == Sequences.FilterMap(subscribers, Unless(keys))
  {
    if subscribers == [] {
    } else {
      var init, s := subscribers[..|subscribers| - 1], subscribers[|subscribers| - 1];
      WithoutKeysFilters(init, keys);
      Sequences.FilterMapPush(init, s, Unless(keys));
      assert subscribers == init + [s];
    }
  }

  lemma WithoutKeysAround(a: seq<Subscriber>, s: Subscriber, b: seq<Subscriber>, keys: set<string>)
    requires Key(s.target) in keys
    ensures WithoutKeys(a + [s] + b, keys) == WithoutKeys(a + b, keys)
  {
    WithoutKeysFilters(a + [s] + b, keys);
    WithoutKeysFilters(a + b, keys);
    Sequences.FilterMapConcat(a + [s], b, Unless(keys));
    Sequences.FilterMapPush(a, s, Unless(keys));
    Sequences.FilterMapConcat(a, b, Unless(keys));
  }

  lemma RemovingKeepsDistinct(subscribers: seq<Subscriber>, i: nat)
    requires KeysDistinct(subscribers) && i < |subscribers|
    ensures KeysDistinct(subscribers[..i] + subscribers[i + 1..])
  {
    var left := subscribers[..i] + subscribers[i + 1..];
    assert forall j :: 0 <= j < |left| ==> left[j] == if j < i then subscribers[j] else subscribers[j + 1];
  }

  lemma UpsertKeepsDistinct(subscribers: seq<Subscriber>, target: Target, mode: Mode, now: int)
    requires KeysDistinct(subscribers)
    ensures KeysDistinct(Upserted(subscribers, target, mode, now).0)
  {
    var after, i := Upserted(subscribers, target, mode, now).0, FindKey(subscribers, Key(target));
    assert forall j :: 0 <= j < |after| && j != i ==> after[j] == subscribers[j];
    assert i < |after| && Key(after[i].target) == Key(target);
  }

  lemma CommandKeepsDistinct(command: Command, st: State, now: int)
    requires KeysDistinct(st.subscribers)
    ensures KeysDistinct(Applied(command, st, now).0.subscribers)
  {
    var i := FindKey(st.subscribers, Key(command.target));
    if !command.Off? {
      UpsertKeepsDistinct(st.subscribers, command.target, CommandMode(command), now);
    } else if i < |st.subscribers| {
      RemovingKeepsDistinct(st.subscribers, i);
    }
  }

  /** How many subscribers have the key. */
  function KeyCount(subscribers: seq<Subscriber>, key: string): nat {
    if subscribers == [] then 0
    else
      var rest := KeyCount(subscribers[1..], key);
      if Key(subscribers[0].target) == key then rest + 1 else rest
  }

  lemma {:induction false} KeyCountConcat(a: seq<Subscriber>, b: seq<Subscriber>, key: string)
    ensures KeyCount(a + b, key) == KeyCount(a, key) + KeyCount(b, key)
  {
    if a == [] {
      assert a + b == b;
    } else {
      KeyCountConcat(a[1..], b, key);
      assert (a + b)[1..] == a[1..] + b;
    }
  }

  lemma KeyCountAround(a: seq<Subscriber>, s: Subscriber, b: seq<Subscriber>, key: string)
    requires Key(s.target) == key
    ensures KeyCount(a + [s] + b, key) == KeyCount(a + b, key) + 1
  {
    KeyCountConcat(a + [s], b, key);
    KeyCountConcat(a, [s], key);
    KeyCountConcat(a, b, key);
    assert [s][1..] == [];
  }

  lemma {:induction false} KeyCountZero(subscribers: seq<Subscriber>, key: string)
    ensures KeyCount(subscribers, key) == 0 <==> FindKey(subscribers, key) == |subscribers|
    ensures KeyCount(subscribers, key) == 0 <==> forall s :: s in subscribers ==> Key(s.target) != key
  {
    if subscribers == [] {
    } else {
      KeyCountZero(subscribers[1..], key);
      assert subscribers == [subscribers[0]] + subscribers[1..];
      var i := FindKey(subscribers, key);
      assert i < |subscribers| ==> subscribers[i] in subscribers;
      if forall s :: s in subscribers ==> Key(s.target) != key {
        assert subscribers[0] in subscribers;
      }
    }
  }

  lemma OneTakenOut(s: seq<Subscriber>, i: nat, key: string)
    requires i < |s| && Key(s[i].target) == key
    ensures var left := s[..i] + s[i + 1..];
            WithoutKeys(left, {key}) == WithoutKeys(s, {key}) && KeyCount(left, key) == KeyCount(s, key) - 1
  {
    assert s == s[..i] + [s[i]] + s[i + 1..];
    WithoutKeysAround(s[..i], s[i], s[i + 1..], {key});
    KeyCountAround(s[..i], s[i], s[i + 1..], key);
  }

  lemma OneReplaced(s: seq<Subscriber>, i: nat, next: Subscriber, key: string)
    requires i < |s| && Key(s[i].target) == key && Key(next.target) == key
    ensures WithoutKeys(s[i := next], {key}) == WithoutKeys(s, {key})
    ensures KeyCount(s[i := next], key) == KeyCount(s, key)
  {
    var t := s[i := next];
    OneTakenOut(s, i, key);
    OneTakenOut(t, i, key);
    assert t[..i] + t[i + 1..] == s[..i] + s[i + 1..];
  }

  lemma OneAdded(s: seq<Subscriber>, next: Subscriber, key: string)
    requires Key(next.target) == key
    ensures WithoutKeys(s + [next], {key}) == WithoutKeys(s, {key})
    ensures KeyCount(s + [next], key) == KeyCount(s, key) + 1
  {
    var t := s + [next];
    OneTakenOut(t, |s|, key);
    assert t[..|s|] + t[|s| + 1..] == s;
  }

  lemma UpsertEffect(subscribers: seq<Subscriber>, target: Target, mode: Mode, now: int)
    ensures var after, key := Upserted(subscribers, target, mode, now).0, Key(target);
            && WithoutKeys(after, {key}) == WithoutKeys(subscribers, {key})
            && KeyCount(after, key) == if KeyCount(subscribers, key) == 0 then 1 else KeyCount(subscribers, key)
  {
    var i := FindKey(subscribers, Key(target));
    KeyCountZero(subscribers, Key(target));
    if i < |subscribers| {
      OneReplaced(subscribers, i, Subscriber(target, mode, now), Key(target));
    } else {
      OneAdded(subscribers, Subscriber(target, mode, now), Key(target));
    }
  }

  lemma OffEffect(subscribers: seq<Subscriber>, key: string)
    ensures var i, before := FindKey(subscribers, key), KeyCount(subscribers, key);
            var after := if i == |subscribers| then subscribers else subscribers[..i] + subscribers[i + 1..];
            && WithoutKeys(after, {key}) == WithoutKeys(subscribers, {key})
            && KeyCount(after, key) == if before == 0 then 0 else before - 1
  {
    KeyCountZero(subscribers, key);
    if FindKey(subscribers, key) < |subscribers| {
      OneTakenOut(subscribers, FindKey(subscribers, key), key);
    }
  }

  lemma OnPutsMode(command: Command, st: State, now: int)
    requires !command.Off?
    ensures exists s :: s in Applied(command, st, now).0.subscribers
                        && Key(s.target) == Key(command.target) && s.mode == CommandMode(command)
  {
    var subscribers, i := Applied(command, st, now).0.subscribers, FindKey(st.subscribers, Key(command.target));
    assert subscribers[i] in subscribers;
  }

  /** Every command leaves the marks alone, and the subscribers with other keys in number and order;
      `off` removes one subscriber with the key if there is any, and `on` and `once` add one if there
      is none and leave one in the mode asked for. */
  lemma CommandEffect(command: Command, st: State, now: int)
    ensures var st', key := Applied(command, st, now).0, Key(command.target);
            var before, after := KeyCount(st.subscribers, key), KeyCount(st'.subscribers, key);
            && st'.notified == st.notified
            && WithoutKeys(st'.subscribers, {key}) == WithoutKeys(st.subscribers, {key})
            && (command.Off? ==> after == if before == 0 then 0 else before - 1)
            && (!command.Off? ==> after == if before == 0 then 1 else before)
            && (!command.Off? ==>
                  exists s :: s in st'.subscribers && Key(s.target) == key && s.mode == CommandMode(command))
  {
    if command.Off? {
      OffEffect(st.subscribers, Key(command.target));
    } else {
      UpsertEffect(st.subscribers, command.target, CommandMode(command), now);
      OnPutsMode(command, st, now);
    }
  }

  // ---------- what is read ----------

  ghost predicate IsNormal(t: Target) {
    t.to != "" && RereadTarget(t) == t
  }

  ghost predicate AllNormal(subscribers: seq<Subscriber>) {
    forall s :: s in subscribers ==> IsNormal(s.target)
  }

  lemma ReadOneIsNormal(item: Json, now: int)
    ensures ReadSubscriber(item, now).Some? ==> IsNormal(ReadSubscriber(item, now).value.target)
  {
    if ReadSubscriber(item, now).Some? {
      forall name: string | Field(item.fields, name).Str? {
        TrimIdempotent(Field(item.fields, name).s);
      }
      TrimFixed(ReadSubscriber(item, now).value.target.to);
    }
  }

  /** Whatever the file holds, every subscriber that is read has a normal target. */
  lemma {:induction false} ReadIsNormal(items: seq<Json>, now: int)
    ensures AllNormal(ReadSubscribers(items, now))
  {
    if items == [] {
    } else {
      ReadIsNormal(items[..|items| - 1], now);
      ReadOneIsNormal(items[|items| - 1], now);
    }
  }

  lemma {:induction false} RereadPointwise(subscribers: seq<Subscriber>)
    requires forall s :: s in subscribers ==> Trim(s.target.to) != ""
    ensures |Reread(subscribers)| == |subscribers|
    ensures forall i :: 0 <= i < |subscribers| ==>
              Reread(subscribers)[i] == subscribers[i].(target := RereadTarget(subscribers[i].target))
  {
    if subscribers == [] {
    } else {
      assert subscribers == subscribers[..|subscribers| - 1] + [subscribers[|subscribers| - 1]];
      RereadPointwise(subscribers[..|subscribers| - 1]);
    }
  }

  lemma {:induction false} RereadNormal(subscribers: seq<Subscriber>)
    requires AllNormal(subscribers)
    ensures Reread(subscribers) == subscribers
  {
    RereadPointwise(subscribers);
    forall i | 0 <= i < |subscribers| ensures Reread(subscribers)[i] == subscribers[i] {
      assert subscribers[i] in subscribers && IsNormal(subscribers[i].target);
    }
  }

  lemma ReadStateNormal(file: File, now: int)
    ensures AllNormal(ReadState(file, now).subscribers)
  {
    if file.Some? {
      var root := if file.value.Obj? then file.value.fields else map[];
      if Field(root, "subscribers").Arr? {
        ReadIsNormal(Field(root, "subscribers").items, now);
      }
    }
  }

  // ---------- runs ----------

  datatype Event =
    | Issue(command: Command, now: int)
    | Tick(pending: seq<Request>, now: int, oracle: Oracle)

  /** The state an event computes from the file, and whether it writes it back. */
  function After(file: File, e: Event): State {
    match e
    case Issue(command, now) => Applied(command, ReadState(file, now), now).0
    case Tick(pending, now, oracle) => Polled(ReadState(file, now), pending, now, oracle).state
  }

  function Writes(file: File, e: Event): bool {
    match e
    case Issue(command, now) => Applied(command, ReadState(file, now), now).1
    case Tick(pending, now, oracle) => Polled(ReadState(file, now), pending, now, oracle).changed
  }

  function StepFile(file: File, e: Event): File {
    if Writes(file, e) then Some(WriteState(After(file, e))) else file
  }

  lemma UnwrittenIsSame(file: File, e: Event)
    requires e.now > 0 && !Writes(file, e)
    ensures After(file, e) == ReadState(file, e.now)
  {
    if e.Tick? {
      ChangedIsExact(ReadState(file, e.now), e.pending, e.now, e.oracle);
    }
  }

  /** files[k] is the state file before the k-th event; the clock is positive and monotone. */
  ghost predicate IsRun(files: seq<File>, events: seq<Event>) {
    && |files| == |events| + 1
    && (forall k :: 0 <= k < |events| ==> files[k + 1] == StepFile(files[k], events[k]))
    && (forall k :: 0 <= k < |events| ==> events[k].now > 0)
    && (forall i, j :: 0 <= i <= j < |events| ==> events[i].now <= events[j].now)
  }

  function Log(file: File, e: Event): seq<Send>
    requires e.Tick?
  {
    Polled(ReadState(file, e.now), e.pending, e.now, e.oracle).log
  }

  /** The event is a poll that successfully tells someone about the request. */
  ghost predicate Delivers(file: File, e: Event, id: string) {
    e.Tick? && exists s :: s in Log(file, e) && s.ok && s.request < |e.pending| && e.pending[s.request].id == id
  }

  ghost predicate IsMarked(file: File, id: string, ts: int) {
    var n := ReadState(file, 0).notified;
    id in n && n[id] == ts
  }

  /** The event is a poll that finds the request gone from the list, or its mark older than 24 hours. */
  ghost predicate Forgets(e: Event, id: string, ts: int) {
    e.Tick? && (id !in PendingIds(e.pending) || e.now - ts > 86_400_000)
  }

  /** The marks of non-blank ids survive the file. */
  lemma StepMarks(file: File, e: Event, id: string, ts: int)
    requires e.now > 0 && Trim(id) != "" && !IsProto(id) && ts > 0
    ensures IsMarked(StepFile(file, e), id, ts) <==> id in After(file, e).notified && After(file, e).notified[id] == ts
  {
    if Writes(file, e) {
      WriteThenRead(After(file, e), 0);
    } else {
      UnwrittenIsSame(file, e);
    }
  }

  lemma ProtoIsNotRead(file: File, now: int)
    ensures forall id :: id in ReadState(file, now).notified ==> !IsProto(id)
  {
  }

  /** A request whose id is an inherited name is never sent, unless the file itself has a mark for
      the id that has not expired; `__proto__` is never sent. */
  lemma InheritedIsNeverSent(st: State, pending: seq<Request>, now: int, oracle: Oracle, s: Send)
    requires now > 0 && s in Polled(st, pending, now, oracle).log
    ensures s.request < |pending|
    ensures IsInherited(pending[s.request].id) ==> pending[s.request].id in st.notified
  {
    PollSends(st, pending, now, oracle);
  }

  lemma DeliveredIsNotProto(file: File, e: Event, id: string)
    requires Delivers(file, e, id) && e.now > 0
    ensures !IsProto(id)
  {
    var s :| s in Log(file, e) && s.ok && s.request < |e.pending| && e.pending[s.request].id == id;
    InheritedIsNeverSent(ReadState(file, e.now), e.pending, e.now, e.oracle, s);
    ProtoIsNotRead(file, e.now);
  }

  lemma DeliveryMarks(file: File, e: Event, id: string)
    requires Delivers(file, e, id) && e.now > 0 && Trim(id) != ""
    ensures IsMarked(StepFile(file, e), id, e.now)
  {
    var s :| s in Log(file, e) && s.ok && s.request < |e.pending| && e.pending[s.request].id == id;
    DeliveredIsMarked(ReadState(file, e.now), e.pending, e.now, e.oracle, s);
    DeliveredIsNotProto(file, e, id);
    StepMarks(file, e, id, e.now);
  }

  lemma MarkIsKept(st: State, pending: seq<Request>, now: int, oracle: Oracle, id: string)
    requires id in st.notified && st.notified[id] > 0 && now > 0
    requires IsKept(id, st.notified[id], PendingIds(pending), now)
    ensures var p := Polled(st, pending, now, oracle);
            && id in p.state.notified && p.state.notified[id] == st.notified[id]
            && forall s :: s in p.log && s.request < |pending| ==> pending[s.request].id != id
  {
    var start := Pruned(st.notified, PendingIds(pending), now);
    assert IsSeen(start, id);
    MarksExactly(st.subscribers, pending, now, oracle, start, |pending|);
    PollSends(st, pending, now, oracle);
  }

  lemma TickKeepsMark(file: File, e: Event, id: string, ts: int)
    requires e.Tick? && IsMarked(file, id, ts) && ts > 0 && e.now > 0 && !Forgets(e, id, ts)
    ensures id in After(file, e).notified && After(file, e).notified[id] == ts
    ensures !Delivers(file, e, id)
  {
    var st := ReadState(file, e.now);
    assert st.notified == ReadState(file, 0).notified;
    MarkIsKept(st, e.pending, e.now, e.oracle, id);
  }

  lemma CommandKeepsMark(file: File, e: Event, id: string, ts: int)
    requires e.Issue? && IsMarked(file, id, ts)
    ensures id in After(file, e).notified && After(file, e).notified[id] == ts
  {
    assert After(file, e).notified == ReadState(file, e.now).notified == ReadState(file, 0).notified;
  }

  lemma MarkStays(file: File, e: Event, id: string, ts: int)
    requires IsMarked(file, id, ts) && ts > 0 && e.now > 0 && Trim(id) != "" && !Forgets(e, id, ts)
    ensures IsMarked(StepFile(file, e), id, ts)
    ensures !Delivers(file, e, id)
  {
    if e.Tick? {
      TickKeepsMark(file, e, id, ts);
    } else {
      CommandKeepsMark(file, e, id, ts);
    }
    ProtoIsNotRead(file, 0);
    StepMarks(file, e, id, ts);
  }

  lemma {:induction false} MarkSurvives(files: seq<File>, events: seq<Event>, a: nat, b: nat, id: string)
    requires IsRun(files, events) && a < b < |events| && Trim(id) != "" && Delivers(files[a], events[a], id)
    requires forall c :: a < c < b ==> !Forgets(events[c], id, events[a].now)
    ensures IsMarked(files[b], id, events[a].now)
  {
    if b == a + 1 {
      DeliveryMarks(files[a], events[a], id);
    } else {
      MarkSurvives(files, events, a, b - 1, id);
      MarkStays(files[b - 1], events[b - 1], id, events[a].now);
    }
  }

  /** No double delivery: two different polls of a run both deliver the same request only if
      some poll after the first, up to the second, finds it gone from the pending list or
      finds its mark more than 24 hours old. */
  lemma DeliveredOnce(files: seq<File>, events: seq<Event>, a: nat, b: nat, id: string)
    requires IsRun(files, events) && a < b < |events| && Trim(id) != ""
    requires Delivers(files[a], events[a], id) && Delivers(files[b], events[b], id)
    ensures exists c :: a < c <= b && events[c].Tick?
              && (id !in PendingIds(events[c].pending) || events[c].now - events[a].now > 86_400_000)
  {
    if forall c :: a < c <= b ==> !Forgets(events[c], id, events[a].now) {
      MarkSurvives(files, events, a, b, id);
      MarkStays(files[b], events[b], id, events[a].now);
    } else {
      var c :| a < c <= b && Forgets(events[c], id, events[a].now);
    }
  }

  function BlankPoll(id: string, now: int): Event {
    Tick([Request(id, None)], now, (i, j) => true)
  }

  lemma BlankSends(sub: Subscriber, id: string, now: int)
    requires sub.mode == Persistent && !IsInherited(id)
    ensures var e := BlankPoll(id, now);
            Delivered([sub], e.pending, now, e.oracle, map[], 1) == Progress(map[id := now], [Send(0, 0, true)])
  {
    var e := BlankPoll(id, now);
    var sends := RequestSends([sub], e.pending[0], 0, e.oracle, 1);
    assert RequestSends([sub], e.pending[0], 0, e.oracle, 0) == [];
    assert sends == [Send(0, 0, true)];
    assert AnyOk(sends) by { assert sends[0].ok; }
    assert Delivered([sub], e.pending, now, e.oracle, map[], 0) == Progress(map[], []);
  }

  lemma BlankPolled(st: State, sub: Subscriber, id: string, now: int)
    requires now > 0 && st.subscribers == [sub] && st.notified == map[] && sub.mode == Persistent && !IsInherited(id)
    ensures var e := BlankPoll(id, now);
            var p := Polled(st, e.pending, now, e.oracle);
            p.log == [Send(0, 0, true)] && p.changed && p.state.subscribers == [sub]
              && p.state.notified == map[id := now]
  {
    var e := BlankPoll(id, now);
    assert Pruned(st.notified, PendingIds(e.pending), now) == map[];
    BlankSends(sub, id, now);
    PollRemovesReachedKeys(st, e.pending, now, e.oracle);
    assert Unreached([sub], [Send(0, 0, true)], 0) == [];
  }

  lemma BlankDelivers(file: File, sub: Subscriber, id: string, now: int)
    requires Trim(id) == "" && now > 0 && sub.mode == Persistent
    requires ReadState(file, now).subscribers == [sub] && ReadState(file, now).notified == map[]
    ensures Delivers(file, BlankPoll(id, now), id)
    ensures StepFile(file, BlankPoll(id, now)) == Some(WriteState(State([sub], map[id := now])))
  {
    var e := BlankPoll(id, now);
    InheritedIsNotBlank(id);
    BlankPolled(ReadState(file, now), sub, id, now);
    assert Log(file, e)[0] in Log(file, e);
  }

  lemma ReadBlank(sub: Subscriber, id: string, now: int, later: int)
    requires Trim(id) == "" && IsNormal(sub.target)
    ensures ReadState(Some(WriteState(State([sub], map[id := now]))), later) == State([sub], map[])
  {
    var st := State([sub], map[id := now]);
    WriteThenRead(st, later);
    RereadNormal([sub]);
    assert ReadState(Some(WriteState(st)), later).notified == map[];
  }

  lemma BlankStep(file: File, sub: Subscriber, id: string, now: int, later: int)
    requires Trim(id) == "" && now > 0 && sub.mode == Persistent && IsNormal(sub.target)
    requires ReadState(file, now).subscribers == [sub] && ReadState(file, now).notified == map[]
    ensures Delivers(file, BlankPoll(id, now), id)
    ensures ReadState(StepFile(file, BlankPoll(id, now)), later) == State([sub], map[])
  {
    BlankDelivers(file, sub, id, now);
    ReadBlank(sub, id, now, later);
  }

  /** A blank request id is the exception: its mark does not survive the file, so two polls
      in a row, one millisecond apart, deliver the same request that never left the list. */
  lemma BlankIdIsDeliveredTwice(id: string, t: Target)
    requires Trim(id) == "" && IsNormal(t)
    ensures var f1 := StepFile(None, Issue(On(t), 1));
            Delivers(f1, BlankPoll(id, 1), id) && Delivers(StepFile(f1, BlankPoll(id, 1)), BlankPoll(id, 2), id)
  {
    var sub := Subscriber(t, Persistent, 1);
    var e := Issue(On(t), 1);
    assert After(None, e).subscribers == [sub];
    var f1 := StepFile(None, e);
    WriteThenRead(After(None, e), 1);
    RereadNormal([sub]);
    BlankStep(f1, sub, id, 1, 2);
    BlankStep(StepFile(f1, BlankPoll(id, 1)), sub, id, 2, 3);
  }

  // ---------- one-shot subscriptions over runs ----------

  function KeysOf(subscribers: seq<Subscriber>): seq<string> {
    seq(|subscribers|, i requires 0 <= i < |subscribers| => Key(subscribers[i].target))
  }

  ghost predicate HasKey(file: File, key: string) {
    key in KeysOf(ReadState(file, 0).subscribers)
  }

  lemma {:induction false} ReadSubscribersAnyTime(items: seq<Json>, t0: int, t1: int)
    ensures var a, b := ReadSubscribers(items, t0), ReadSubscribers(items, t1);
            |a| == |b| && forall i :: 0 <= i < |a| ==> a[i].target == b[i].target && a[i].mode == b[i].mode
  {
    if items == [] {
    } else {
      ReadSubscribersAnyTime(items[..|items| - 1], t0, t1);
    }
  }

  lemma ReadAnyTime(file: File, t0: int, t1: int)
    ensures var a, b := ReadState(file, t0).subscribers, ReadState(file, t1).subscribers;
            |a| == |b| && forall i :: 0 <= i < |a| ==> a[i].target == b[i].target && a[i].mode == b[i].mode
  {
    if file.Some? {
      var root := if file.value.Obj? then file.value.fields else map[];
      if Field(root, "subscribers").Arr? {
        ReadSubscribersAnyTime(Field(root, "subscribers").items, t0, t1);
      }
    }
  }

  lemma KeysAnyTime(file: File, t0: int, t1: int)
    ensures KeysOf(ReadState(file, t0).subscribers) == KeysOf(ReadState(file, t1).subscribers)
  {
    ReadAnyTime(file, t0, t1);
  }

  /** The keys read after an event are those of the state it computed, written and read back. */
  lemma StepKeys(file: File, e: Event, now: int)
    requires e.now > 0
    ensures KeysOf(ReadState(StepFile(file, e), now).subscribers) == KeysOf(Reread(After(file, e).subscribers))
    ensures e.Tick? ==> Reread(After(file, e).subscribers) == After(file, e).subscribers
  {
    ReadStateNormal(file, e.now);
    if e.Tick? {
      var st := ReadState(file, e.now);
      WithoutKeysLength(st.subscribers, OneShotDelivered(st.subscribers, Log(file, e)));
      RereadNormal(After(file, e).subscribers);
    }
    if Writes(file, e) {
      WriteThenRead(After(file, e), now);
    } else {
      UnwrittenIsSame(file, e);
      RereadNormal(After(file, e).subscribers);
      KeysAnyTime(file, e.now, now);
    }
  }

  lemma KeysOfMembers(subscribers: seq<Subscriber>, key: string)
    ensures key in KeysOf(subscribers) <==> exists s :: s in subscribers && Key(s.target) == key
  {
    if s :| s in subscribers && Key(s.target) == key {
      var i :| 0 <= i < |subscribers| && subscribers[i] == s;
      assert KeysOf(subscribers)[i] == key;
    }
    if key in KeysOf(subscribers) {
      var i :| 0 <= i < |subscribers| && KeysOf(subscribers)[i] == key;
      assert subscribers[i] in subscribers;
    }
  }

  /** The event sends a message to a subscriber with the key, and it goes through. */
  ghost predicate SendsTo(file: File, e: Event, key: string, oneShotOnly: bool) {
    e.Tick? && exists s :: s in Log(file, e) && s.ok && s.subscriber < |ReadState(file, e.now).subscribers|
                           && Key(ReadState(file, e.now).subscribers[s.subscriber].target) == key
                           && (oneShotOnly ==> ReadState(file, e.now).subscribers[s.subscriber].mode == Once)
  }

  /** The event subscribes a target that is read back under the key. */
  ghost predicate Subscribes(e: Event, key: string) {
    e.Issue? && !e.command.Off? && Key(RereadTarget(e.command.target)) == key
  }

  lemma ReachedKeyIsRemoved(subscribers: seq<Subscriber>, log: seq<Send>, s: Send)
    requires s in log && s.ok && s.subscriber < |subscribers| && subscribers[s.subscriber].mode == Once
    ensures forall x :: x in WithoutKeys(subscribers, OneShotDelivered(subscribers, log)) ==>
              Key(x.target) != Key(subscribers[s.subscriber].target)
  {
    var k :| 0 <= k < |log| && log[k] == s;
    assert Key(subscribers[s.subscriber].target) in OneShotDelivered(subscribers, log);
    WithoutKeysLength(subscribers, OneShotDelivered(subscribers, log));
  }

  lemma OneShotIsGone(file: File, e: Event, key: string)
    requires SendsTo(file, e, key, true) && e.now > 0
    ensures !HasKey(StepFile(file, e), key)
  {
    var subscribers, log := ReadState(file, e.now).subscribers, Log(file, e);
    var s :| s in log && s.ok && s.subscriber < |subscribers|
             && Key(subscribers[s.subscriber].target) == key && subscribers[s.subscriber].mode == Once;
    ReachedKeyIsRemoved(subscribers, log, s);
    KeysOfMembers(After(file, e).subscribers, key);
    StepKeys(file, e, 0);
  }

  lemma {:induction false} RereadMembers(subscribers: seq<Subscriber>, s: Subscriber)
    requires s in Reread(subscribers)
    ensures exists r :: r in subscribers && s == r.(target := RereadTarget(r.target))
  {
    var last := subscribers[|subscribers| - 1];
    if s in Reread(subscribers[..|subscribers| - 1]) {
      RereadMembers(subscribers[..|subscribers| - 1], s);
      var r :| r in subscribers[..|subscribers| - 1] && s == r.(target := RereadTarget(r.target));
      assert r in subscribers;
    } else {
      assert last in subscribers && s == last.(target := RereadTarget(last.target));
    }
  }

  lemma AppliedMembers(command: Command, st: State, now: int, s: Subscriber)
    requires s in Applied(command, st, now).0.subscribers
    ensures s in st.subscribers || (!command.Off? && s.target == command.target)
  {
  }

  lemma AppliedKeys(command: Command, st: State, now: int, key: string)
    requires AllNormal(st.subscribers) && (forall s :: s in st.subscribers ==> Key(s.target) != key)
    requires command.Off? || Key(RereadTarget(command.target)) != key
    ensures forall s :: s in Reread(Applied(command, st, now).0.subscribers) ==> Key(s.target) != key
  {
    var subscribers' := Applied(command, st, now).0.subscribers;
    forall s | s in Reread(subscribers') ensures Key(s.target) != key {
      RereadMembers(subscribers', s);
      var r :| r in subscribers' && s == r.(target := RereadTarget(r.target));
      AppliedMembers(command, st, now, r);
    }
  }

  lemma AfterHasNoKey(file: File, e: Event, key: string)
    requires (forall s :: s in ReadState(file, e.now).subscribers ==> Key(s.target) != key)
    requires !Subscribes(e, key) && e.now > 0
    ensures forall s :: s in Reread(After(file, e).subscribers) ==> Key(s.target) != key
  {
    var subscribers := ReadState(file, e.now).subscribers;
    ReadStateNormal(file, e.now);
    match e
    case Issue(command, now) =>
      AppliedKeys(command, ReadState(file, now), now, key);
    case Tick(pending, now, oracle) =>
      StepKeys(file, e, 0);
      WithoutKeysLength(subscribers, OneShotDelivered(subscribers, Log(file, e)));
  }

  lemma KeyStaysAway(file: File, e: Event, key: string)
    requires !HasKey(file, key) && !Subscribes(e, key) && e.now > 0
    ensures !HasKey(StepFile(file, e), key) && !SendsTo(file, e, key, false)
  {
    KeysAnyTime(file, 0, e.now);
    KeysOfMembers(ReadState(file, e.now).subscribers, key);
    AfterHasNoKey(file, e, key);
    KeysOfMembers(Reread(After(file, e).subscribers), key);
    StepKeys(file, e, 0);
  }

  lemma {:induction false} KeyAwayUntil(files: seq<File>, events: seq<Event>, a: nat, b: nat, key: string)
    requires IsRun(files, events) && a < b < |events| && SendsTo(files[a], events[a], key, true)
    requires forall c :: a < c < b ==> !Subscribes(events[c], key)
    ensures !HasKey(files[b], key)
  {
    if b == a + 1 {
      OneShotIsGone(files[a], events[a], key);
    } else {
      KeyAwayUntil(files, events, a, b - 1, key);
      KeyStaysAway(files[b - 1], events[b - 1], key);
    }
  }

  /** A one-shot subscription fires in one poll only: after a send to it went through, its
      chat hears nothing more until it is subscribed again. */
  lemma OneShotFiresOnce(files: seq<File>, events: seq<Event>, a: nat, b: nat, key: string)
    requires IsRun(files, events) && a < b < |events|
    requires SendsTo(files[a], events[a], key, true) && SendsTo(files[b], events[b], key, false)
    ensures exists c :: a < c < b && Subscribes(events[c], key)
  {
    if forall c :: a < c < b ==> !Subscribes(events[c], key) {
      KeyAwayUntil(files, events, a, b, key);
      KeyStaysAway(files[b], events[b], key);
    }
  }

  // ---------- distinct keys ----------

  /** The account and thread of a target survive trimming. */
  predicate IsKeyStable(t: Target) {
    IsTrimmed(AccountText(t)) && (t.threadId.TextThread? ==> IsTrimmed(t.threadId.text))
  }

  /** Exactly the stable targets keep their key when written and read back. */
  lemma KeyStableIff(t: Target)
    requires IsTrimmed(t.to)
    ensures Key(RereadTarget(t)) == Key(t) <==> IsKeyStable(t)
  {
    TrimFixed(t.to);
    var a, x := AccountText(t), ThreadText(t.threadId);
    TrimIdempotent(a);
    TrimIdempotent(x);
    if IsTrimmed(a) { TrimFixed(a); }
    if t.threadId.TextThread? && IsTrimmed(x) { TrimFixed(x); }
    var r := RereadTarget(t);
    assert AccountText(r) == Trim(a);
    assert |Key(t)| == |t.to| + |a| + |x| + 2;
    assert |Key(r)| == |t.to| + |Trim(a)| + |ThreadText(r.threadId)| + 2;
    assert t.threadId.TextThread? ==> ThreadText(r.threadId) == Trim(x);
  }

  /** What resolveNotifyTarget promises of a command's target, and stability on top. */
  ghost predicate HasStableTarget(e: Event) {
    e.Issue? ==> e.command.target.to != "" && IsTrimmed(e.command.target.to) && IsKeyStable(e.command.target)
  }

  lemma DistinctByKeys(a: seq<Subscriber>, b: seq<Subscriber>)
    requires KeysDistinct(a) && KeysOf(a) == KeysOf(b)
    ensures KeysDistinct(b)
  {
    assert |a| == |KeysOf(a)| == |b|;
    forall i, j | 0 <= i < j < |b| ensures Key(b[i].target) != Key(b[j].target) {
      assert KeysOf(a)[i] == KeysOf(b)[i] && KeysOf(a)[j] == KeysOf(b)[j];
    }
  }

  lemma DistinctPush(subscribers: seq<Subscriber>, s: Subscriber)
    requires KeysDistinct(subscribers)
    requires forall i :: 0 <= i < |subscribers| ==> Key(subscribers[i].target) != Key(s.target)
    ensures KeysDistinct(subscribers + [s])
  {
  }

  lemma {:induction false} WithoutKeysDistinct(subscribers: seq<Subscriber>, keys: set<string>)
    requires KeysDistinct(subscribers)
    ensures KeysDistinct(WithoutKeys(subscribers, keys))
  {
    if subscribers == [] {
    } else {
      var init, s := subscribers[..|subscribers| - 1], subscribers[|subscribers| - 1];
      var left := WithoutKeys(init, keys);
      WithoutKeysDistinct(init, keys);
      WithoutKeysLength(init, keys);
      forall i | 0 <= i < |left| ensures Key(left[i].target) != Key(s.target) {
        assert left[i] in init;
      }
      DistinctPush(left, s);
    }
  }

  lemma StableRereadDistinct(subscribers: seq<Subscriber>, t: Target)
    requires KeysDistinct(subscribers) && t.to != "" && IsTrimmed(t.to) && IsKeyStable(t)
    requires forall s :: s in subscribers ==> IsNormal(s.target) || s.target == t
    ensures KeysDistinct(Reread(subscribers))
  {
    TrimFixed(t.to);
    KeyStableIff(t);
    RereadPointwise(subscribers);
    forall i | 0 <= i < |subscribers| ensures Key(Reread(subscribers)[i].target) == Key(subscribers[i].target) {
      assert subscribers[i] in subscribers;
    }
  }

  lemma StepKeepsDistinct(file: File, e: Event, next: File, now: int)
    requires next == StepFile(file, e) && e.now > 0 && KeysDistinct(ReadState(file, e.now).subscribers)
    requires HasStableTarget(e)
    ensures KeysDistinct(ReadState(next, now).subscribers)
  {
    var st := ReadState(file, e.now);
    ReadStateNormal(file, e.now);
    match e {
      case Issue(command, t) =>
        CommandKeepsDistinct(command, st, t);
        forall s | s in After(file, e).subscribers ensures IsNormal(s.target) || s.target == command.target {
          AppliedMembers(command, st, t, s);
        }
        StableRereadDistinct(After(file, e).subscribers, command.target);
      case Tick(pending, t, oracle) =>
        WithoutKeysDistinct(st.subscribers, OneShotDelivered(st.subscribers, Log(file, e)));
    }
    StepKeys(file, e, now);
    DistinctByKeys(Reread(After(file, e).subscribers), ReadState(StepFile(file, e), now).subscribers);
  }

  function ReadSubscribersAt(file: File, now: int): seq<Subscriber> {
    ReadState(file, now).subscribers
  }

  ghost predicate KeysDistinctIn(file: File) {
    forall now :: KeysDistinct(ReadSubscribersAt(file, now))
  }

  lemma EmptyIsDistinct()
    ensures KeysDistinctIn(None)
  {
  }

  lemma StepStaysDistinct(file: File, e: Event, next: File)
    requires next == StepFile(file, e) && e.now > 0 && KeysDistinctIn(file) && HasStableTarget(e)
    ensures KeysDistinctIn(next)
  {
    assert KeysDistinct(ReadSubscribersAt(file, e.now));
    forall now ensures KeysDistinct(ReadSubscribersAt(next, now)) {
      StepKeepsDistinct(file, e, next, now);
    }
  }

  /** In every state reachable from the empty file by polls and by commands whose targets
      are stable, no two subscribers share a key. */
  lemma {:induction false} KeysStayDistinct(files: seq<File>, events: seq<Event>, k: nat)
    requires IsRun(files, events) && files[0] == None && k <= |events|
    requires forall e :: e in events ==> HasStableTarget(e)
    ensures KeysDistinctIn(files[k])
  {
    if k == 0 {
      EmptyIsDistinct();
    } else {
      var i := k - 1;
      KeysStayDistinct(files, events, i);
      assert files[i + 1] == StepFile(files[i], events[i]);
      assert events[i] in events;
      StepStaysDistinct(files[i], events[i], files[k]);
    }
  }

  lemma RereadTwice(t: Target)
    ensures RereadTarget(RereadTarget(t)) == RereadTarget(t)
  {
    TrimIdempotent(t.to);
    TrimIdempotent(AccountText(t));
    if t.threadId.TextThread? {
      TrimIdempotent(t.threadId.text);
    }
  }

  lemma FirstIsReread(t: Target)
    requires t.to != "" && IsTrimmed(t.to)
    ensures ReadState(StepFile(None, Issue(On(t), 1)), 1).subscribers == [Subscriber(RereadTarget(t), Persistent, 1)]
  {
    var e, sub := Issue(On(t), 1), Subscriber(t, Persistent, 1);
    TrimFixed(t.to);
    assert After(None, e).subscribers == [sub];
    WriteThenRead(After(None, e), 1);
    RereadPointwise([sub]);
  }

  lemma SecondIsAppended(t: Target, file: File)
    requires ReadState(file, 1).subscribers == [Subscriber(RereadTarget(t), Persistent, 1)]
    requires t.to != "" && IsTrimmed(t.to) && !IsKeyStable(t)
    ensures After(file, Issue(On(t), 1)).subscribers ==
            [Subscriber(RereadTarget(t), Persistent, 1), Subscriber(t, Persistent, 1)]
  {
    KeyStableIff(t);
    assert FindKey(ReadState(file, 1).subscribers, Key(t)) == 1;
  }

  /** A target that is not stable breaks it: switched on twice, it is stored twice. */
  lemma UnstableTargetIsStoredTwice(t: Target, now: int)
    requires t.to != "" && IsTrimmed(t.to) && !IsKeyStable(t)
    ensures var e := Issue(On(t), 1);
            !KeysDistinct(ReadState(StepFile(StepFile(None, e), e), now).subscribers)
  {
    var e, sub, stored := Issue(On(t), 1), Subscriber(t, Persistent, 1), Subscriber(RereadTarget(t), Persistent, 1);
    var f1 := StepFile(None, e);
    FirstIsReread(t);
    SecondIsAppended(t, f1);
    TrimFixed(t.to);
    RereadTwice(t);
    WriteThenRead(After(f1, e), now);
    RereadPointwise([stored, sub]);
    var r := Reread([stored, sub]);
    assert r[0].target == r[1].target;
  }

  // ---------- chats that share a key ----------

  /** The part of the key before the thread. */
  function ChatKey(t: Target): string {
    t.to + "|" + AccountText(t) + "|"
  }

  lemma ContinuedChat(t: Target, u: Target)
    requires ChatKey(t) <= ChatKey(u)
    ensures Key(t.(threadId := TextThread(ChatKey(u)[|ChatKey(t)|..]))) == Key(u.(threadId := NoThread))
  {
    assert ChatKey(u) == ChatKey(t) + ChatKey(u)[|ChatKey(t)|..];
  }

  /** With some threads two chats have one key exactly when one of them continues the other. */
  lemma ChatsShareKeyIff(t: Target, u: Target)
    ensures (exists x, y :: Key(t.(threadId := x)) == Key(u.(threadId := y)))
            <==> ChatKey(t) <= ChatKey(u) || ChatKey(u) <= ChatKey(t)
  {
    if x, y :| Key(t.(threadId := x)) == Key(u.(threadId := y)) {
      var key := ChatKey(t) + ThreadText(x);
      assert key == ChatKey(u) + ThreadText(y);
      assert key[..|ChatKey(t)|] == ChatKey(t) && key[..|ChatKey(u)|] == ChatKey(u);
    }
    if ChatKey(t) <= ChatKey(u) {
      ContinuedChat(t, u);
    }
    if ChatKey(u) <= ChatKey(t) {
      ContinuedChat(u, t);
    }
  }

  predicate IsPlain(t: Target) {
    '|' !in t.to && '|' !in AccountText(t)
  }

  lemma PlainPrefix(a: string, x: string, b: string, y: string)
    requires '|' !in a && '|' !in b && a + "|" + x == b + "|" + y
    ensures a == b && x == y
  {
    var s := a + "|" + x;
    assert forall i :: 0 <= i < |a| ==> s[i] == a[i];
    assert forall i :: 0 <= i < |b| ==> s[i] == b[i];
    assert s[|a|] == '|' && s[|b|] == '|';
    assert a == s[..|a|] && b == s[..|b|] && x == s[|a| + 1..] && y == s[|b| + 1..];
  }

  /** Where neither chat nor account has a bar, the key tells chats, accounts and threads apart. */
  lemma PlainKeyInjective(t: Target, u: Target)
    requires IsPlain(t) && IsPlain(u)
    ensures Key(t) == Key(u) <==>
            t.to == u.to && AccountText(t) == AccountText(u) && ThreadText(t.threadId) == ThreadText(u.threadId)
  {
    var a, b := AccountText(t) + "|" + ThreadText(t.threadId), AccountText(u) + "|" + ThreadText(u.threadId);
    assert Key(t) == t.to + "|" + a && Key(u) == u.to + "|" + b;
    if Key(t) == Key(u) {
      PlainPrefix(t.to, a, u.to, b);
      PlainPrefix(AccountText(t), ThreadText(t.threadId), AccountText(u), ThreadText(u.threadId));
    }
  }

  /** A second chat with the key of a stored one is not stored when it is switched on: the file stays
      as it is, with the first chat only. */
  lemma SecondChatIsDropped(t: Target, u: Target)
    requires IsNormal(t) && Key(t) == Key(u)
    ensures var f := StepFile(None, Issue(On(t), 1));
            StepFile(f, Issue(On(u), 1)) == f && ReadState(f, 1).subscribers == [Subscriber(t, Persistent, 1)]
  {
    var f := StepFile(None, Issue(On(t), 1));
    TrimIdempotent(t.to);
    FirstIsReread(t);
    assert FindKey(ReadState(f, 1).subscribers, Key(u)) == 0;
  }

  /** Two different chats of which the second is lost: `a|b`, and the thread `|` of chat `a`, account `b`. */
  lemma BarIsAmbiguous(t: Target, u: Target)
    requires t == Target("a|b", None, NoThread) && u == Target("a", Some("b"), TextThread("|"))
    ensures t != u && IsNormal(t) && IsNormal(u) && Key(t) == Key(u)
  {
    TrimFixed("a|b");
    TrimFixed("a");
    TrimFixed("b");
    TrimFixed("|");
  }
}

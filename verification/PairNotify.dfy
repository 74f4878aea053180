/** The device-pairing notifier (extensions/device-pair/notify.ts): subscribers that are told
    about pending pairing requests, the requests already told about, and the JSON file in
    which both survive from one poll or command to the next. */
module PairNotify {
  import opened Text

  /** A parsed JSON value.  Numbers are exact here; JSON text has no NaN. */
  datatype Json =
    | Null
    | Bool(b: bool)
    | Number(value: real)
    | Str(s: string)
    | Arr(items: seq<Json>)
    | Obj(fields: map<string, Json>)

  datatype Mode = Persistent | Once
  datatype ThreadId = NoThread | NumThread(n: int) | TextThread(text: string)

  datatype Target = Target(to: string, accountId: Option<string>, threadId: ThreadId)
  datatype Subscriber = Subscriber(target: Target, mode: Mode, addedAtMs: int)
  datatype State = State(subscribers: seq<Subscriber>, notified: map<string, int>)

  datatype Request = Request(id: string, ts: Option<real>)

  const NOTIFY_MAX_SEEN_AGE_MS: int := 24 * 60 * 60 * 1000

  // ---------- reading and writing the state file ----------

  /** `Math.trunc`. */
  function Truncate(r: real): int {
    if r >= 0.0 then r.Floor else -((-r).Floor)
  }

  function Field(fields: map<string, Json>, name: string): Json {
    if name in fields then fields[name] else Null
  }

  function TextField(j: Json): string {
    if j.Str? then Trim(j.s) else ""
  }

  function NonEmpty(s: string): Option<string> {
    if s == "" then None else Some(s)
  }

  function ReadThread(j: Json): ThreadId {
    match j
    case Str(s) => if Trim(s) == "" then NoThread else TextThread(Trim(s))
    case Number(v) => NumThread(Truncate(v))
    case _ => NoThread
  }

  /** One entry of the stored list; entries without a usable `to` are dropped. */
  function ReadSubscriber(item: Json, now: int): Option<Subscriber> {
    if !item.Obj? || TextField(Field(item.fields, "to")) == "" then None
    else
      var f := item.fields;
      Some(Subscriber(
        Target(TextField(Field(f, "to")), NonEmpty(TextField(Field(f, "accountId"))),
          ReadThread(Field(f, "messageThreadId"))),
        if Field(f, "mode") == Str("once") then Once else Persistent,
        if Field(f, "addedAtMs").Number? then Truncate(Field(f, "addedAtMs").value) else now))
  }

  function ReadSubscribers(items: seq<Json>, now: int): seq<Subscriber> {
    if items == [] then []
    else
      ReadSubscribers(items[..|items| - 1], now)
      + match ReadSubscriber(items[|items| - 1], now)
        case Some(s) => [s]
        case None => []
  }

  /** The marks that are read: those of non-blank ids with a positive time. */
  function ReadNotified(fields: map<string, Json>): map<string, int> {
    map id | id in fields && Trim(id) != "" && !IsProto(id) && fields[id].Number? && fields[id].value > 0.0 ::
      Truncate(fields[id].value)
  }

  /** normalizeNotifyState. */
  function NormalizeNotifyState(raw: Json, now: int): State {
    var root := if raw.Obj? then raw.fields else map[];
    var subscribers := Field(root, "subscribers");
    var notified := Field(root, "notifiedRequestIds");
    State(if subscribers.Arr? then ReadSubscribers(subscribers.items, now) else [],
          if notified.Obj? then ReadNotified(notified.fields) else map[])
  }

  function WriteSubscriber(s: Subscriber): Json {
    var t := s.target;
    Obj(map["to" := Str(t.to), "mode" := Str(if s.mode == Once then "once" else "persistent"),
            "addedAtMs" := Number(s.addedAtMs as real)]
        + (if t.accountId.Some? then map["accountId" := Str(t.accountId.value)] else map[])
        + match t.threadId
          case NoThread => map[]
          case NumThread(n) => map["messageThreadId" := Number(n as real)]
          case TextThread(x) => map["messageThreadId" := Str(x)])
  }

  /** What writeNotifyState stores; `undefined` fields are not written. */
  function WriteState(st: State): Json {
    Obj(map["subscribers" := Arr(seq(|st.subscribers|,
      i requires 0 <= i < |st.subscribers| => WriteSubscriber(st.subscribers[i]))),
            "notifiedRequestIds" := Obj(map id | id in st.notified :: Number(st.notified[id] as real))])
  }

  /** A missing or unparsable file reads as the empty state. */
  type File = Option<Json>

  function ReadState(file: File, now: int): State {
    match file
    case None => State([], map[])
    case Some(raw) => NormalizeNotifyState(raw, now)
  }

  /** What a target has become once it was written and read again. */
  function RereadTarget(t: Target): Target {
    Target(Trim(t.to),
           if t.accountId.Some? then NonEmpty(Trim(t.accountId.value)) else None,
           match t.threadId
           case TextThread(x) => if Trim(x) == "" then NoThread else TextThread(Trim(x))
           case other => other)
  }

  function Reread(subscribers: seq<Subscriber>): seq<Subscriber> {
    if subscribers == [] then []
    else
      var s := subscribers[|subscribers| - 1];
      Reread(subscribers[..|subscribers| - 1])
      + if Trim(s.target.to) == "" then [] else [s.(target := RereadTarget(s.target))]
  }

  lemma TruncateInt(n: int)
    ensures Truncate(n as real) == n
  {
  }

  lemma RereadSubscriber(s: Subscriber, now: int)
    ensures ReadSubscriber(WriteSubscriber(s), now)
            == if Trim(s.target.to) == "" then None else Some(s.(target := RereadTarget(s.target)))
  {
    TruncateInt(s.addedAtMs);
    if s.target.threadId.NumThread? {
      TruncateInt(s.target.threadId.n);
    }
    var f := WriteSubscriber(s).fields;
    assert Field(f, "to") == Str(s.target.to);
    assert Field(f, "addedAtMs") == Number(s.addedAtMs as real);
    assert Field(f, "mode") == Str(if s.mode == Once then "once" else "persistent");
    assert "once" != "persistent" by { assert |"once"| != |"persistent"|; }
    assert Field(f, "accountId") == if s.target.accountId.Some? then Str(s.target.accountId.value) else Null;
    assert Field(f, "messageThreadId") == match s.target.threadId
        case NoThread => Null
        case NumThread(n) => Number(n as real)
        case TextThread(x) => Str(x);
  }

  lemma {:induction false} RereadSubscribers(items: seq<Json>, subscribers: seq<Subscriber>, now: int)
    requires |items| == |subscribers|
    requires forall i :: 0 <= i < |items| ==> items[i] == WriteSubscriber(subscribers[i])
    ensures ReadSubscribers(items, now) == Reread(subscribers)
  {
    if items == [] {
    } else {
      RereadSubscribers(items[..|items| - 1], subscribers[..|items| - 1], now);
      RereadSubscriber(subscribers[|items| - 1], now);
    }
  }

  lemma RereadMarks(notified: map<string, int>)
    ensures ReadNotified(map id | id in notified :: Number(notified[id] as real))
            == map id | id in notified && Trim(id) != "" && !IsProto(id) && notified[id] > 0 :: notified[id]
  {
    forall id | id in notified ensures Truncate(notified[id] as real) == notified[id] {
      TruncateInt(notified[id]);
    }
  }

  /** Writing a state and reading it back: every target is trimmed, and the marks that
      survive are those of a non-blank request id other than `__proto__` with a positive time. */
  lemma WriteThenRead(st: State, now: int)
    ensures ReadState(Some(WriteState(st)), now).subscribers == Reread(st.subscribers)
    ensures ReadState(Some(WriteState(st)), now).notified
            == map id | id in st.notified && Trim(id) != "" && !IsProto(id) && st.notified[id] > 0 :: st.notified[id]
  {
    var items := WriteState(st).fields["subscribers"].items;
    assert Field(WriteState(st).fields, "subscribers") == Arr(items);
    RereadSubscribers(items, st.subscribers, now);
    var marks := map id | id in st.notified :: Number(st.notified[id] as real);
    assert Field(WriteState(st).fields, "notifiedRequestIds") == Obj(marks);
    RereadMarks(st.notified);
  }

  // ---------- subscribers ----------

  function ThreadText(t: ThreadId): string {
    match t
    case NoThread => ""
    case NumThread(n) => if n < 0 then "-" + Dec(-n) else Dec(n)
    case TextThread(text) => text
  }

  function AccountText(t: Target): string {
    if t.accountId.Some? then t.accountId.value else ""
  }

  /** notifySubscriberKey. */
  function Key(t: Target): string {
    t.to + "|" + AccountText(t) + "|" + ThreadText(t.threadId)
  }

  datatype Context = Context(senderId: Option<string>, from: Option<string>, to: Option<string>,
                             accountId: Option<string>, threadId: ThreadId)

  function TrimmedOr(s: Option<string>, other: string): (r: string)
    requires IsTrimmed(other)
    ensures IsTrimmed(r)
  {
    if s.Some? && Trim(s.value) != "" then TrimIdempotent(s.value); Trim(s.value) else other
  }

  predicate IsBlank(s: Option<string>) {
    s.None? || Trim(s.value) == ""
  }

  /** resolveNotifyTarget: the sender, or else `from`, or else `to`, trimmed; the account, when it is
      not empty, and the thread are taken as they come. */
  function ResolveNotifyTarget(ctx: Context): (t: Option<Target>)
    ensures t.Some? ==> t.value.to != "" && IsTrimmed(t.value.to) && t.value.threadId == ctx.threadId
    ensures t.None? <==> IsBlank(ctx.senderId) && IsBlank(ctx.from) && IsBlank(ctx.to)
    ensures !IsBlank(ctx.senderId) ==> t.Some? && t.value.to == Trim(ctx.senderId.value)
    ensures IsBlank(ctx.senderId) && !IsBlank(ctx.from) ==> t.Some? && t.value.to == Trim(ctx.from.value)
    ensures IsBlank(ctx.senderId) && IsBlank(ctx.from) && !IsBlank(ctx.to)
            ==> t.Some? && t.value.to == Trim(ctx.to.value)
    ensures t.Some? ==> t.value.accountId == if ctx.accountId == Some("") then None else ctx.accountId
  {
    var to := TrimmedOr(ctx.senderId, TrimmedOr(ctx.from, TrimmedOr(ctx.to, "")));
    if to == "" then None
    else Some(Target(to, if ctx.accountId == Some("") then None else ctx.accountId, ctx.threadId))
  }

  /** The first position of a subscriber with the key, or the length of the list. */
  function FindKey(subscribers: seq<Subscriber>, key: string): (i: nat)
    ensures i <= |subscribers|
    ensures i < |subscribers| ==> Key(subscribers[i].target) == key
    ensures forall k :: 0 <= k < i ==> Key(subscribers[k].target) != key
  {
    if subscribers == [] then 0
    else if Key(subscribers[0].target) == key then 0
    else 1 + FindKey(subscribers[1..], key)
  }

  /** upsertNotifySubscriber on values: the new list, and whether it changed. */
  function Upserted(subscribers: seq<Subscriber>, target: Target, mode: Mode, now: int): (seq<Subscriber>, bool) {
    var i := FindKey(subscribers, Key(target));
    var next := Subscriber(target, mode, now);
    if i == |subscribers| then (subscribers + [next], true)
    else if subscribers[i].mode == mode then (subscribers, false)
    else (subscribers[i := next], true)
  }

  datatype Command = On(target: Target) | Off(target: Target) | Arm(target: Target)

  function Applied(command: Command, st: State, now: int): (State, bool) {
    match command
    case On(t) =>
      var (subscribers, changed) := Upserted(st.subscribers, t, Persistent, now);
      (st.(subscribers := subscribers), changed)
    case Arm(t) =>
      var (subscribers, changed) := Upserted(st.subscribers, t, Once, now);
      (st.(subscribers := subscribers), changed)
    case Off(t) =>
      var i := FindKey(st.subscribers, Key(t));
      if i == |st.subscribers| then (st, false)
      else (st.(subscribers := st.subscribers[..i] + st.subscribers[i + 1..]), true)
  }

  // ---------- one poll ----------

  /** requestTimestampMs. */
  function RequestTimestampMs(r: Request): Option<int> {
    if r.ts.None? || Truncate(r.ts.value) <= 0 then None else Some(Truncate(r.ts.value))
  }

  /** shouldNotifySubscriberForRequest. */
  predicate ShouldNotify(s: Subscriber, r: Request) {
    s.mode == Persistent || (RequestTimestampMs(r).Some? && RequestTimestampMs(r).value >= s.addedAtMs)
  }

  /** A message sent in a poll: which pending request, to which subscriber, and whether it
      went through. */
  datatype Send = Send(request: nat, subscriber: nat, ok: bool)

  /** Whether a send of the i-th pending request to the j-th subscriber goes through. */
  type Oracle = (nat, nat) -> bool

  function PendingIds(pending: seq<Request>): set<string> {
    set r | r in pending :: r.id
  }

  predicate IsKept(id: string, ts: int, pendingIds: set<string>, now: int) {
    id in pendingIds && now - ts <= NOTIFY_MAX_SEEN_AGE_MS
  }

  function Pruned(notified: map<string, int>, pendingIds: set<string>, now: int): map<string, int> {
    map id | id in notified && IsKept(id, notified[id], pendingIds, now) :: notified[id]
  }

  /** A mark counts when it is truthy, and so does what every object inherits under the id. */
  predicate IsSeen(notified: map<string, int>, id: string) {
    if id in notified then notified[id] != 0 else IsInherited(id)
  }

  function RequestSends(subscribers: seq<Subscriber>, r: Request, i: nat, oracle: Oracle, n: nat): seq<Send>
    requires n <= |subscribers|
  {
    if n == 0 then []
    else RequestSends(subscribers, r, i, oracle, n - 1)
         + if ShouldNotify(subscribers[n - 1], r) then [Send(i, n - 1, oracle(i, n - 1))] else []
  }

  predicate AnyOk(sends: seq<Send>) {
    exists k :: 0 <= k < |sends| && sends[k].ok
  }

  datatype Progress = Progress(notified: map<string, int>, log: seq<Send>)

  /** The first k pending requests, worked off in order. */
  function Delivered(subscribers: seq<Subscriber>, pending: seq<Request>, now: int, oracle: Oracle,
                     start: map<string, int>, k: nat): Progress
    requires k <= |pending|
  {
    if k == 0 then Progress(start, [])
    else
      var p := Delivered(subscribers, pending, now, oracle, start, k - 1);
      var r := pending[k - 1];
      if IsSeen(p.notified, r.id) then p
      else
        var sends := RequestSends(subscribers, r, k - 1, oracle, |subscribers|);
        Progress(if AnyOk(sends) then p.notified[r.id := now] else p.notified, p.log + sends)
  }

  /** The keys of the one-shot subscribers some send reached. */
  function OneShotDelivered(subscribers: seq<Subscriber>, log: seq<Send>): set<string> {
    set k | 0 <= k < |log| && log[k].ok && log[k].subscriber < |subscribers|
      && subscribers[log[k].subscriber].mode == Once
      :: Key(subscribers[log[k].subscriber].target)
  }

  function WithoutKeys(subscribers: seq<Subscriber>, keys: set<string>): seq<Subscriber> {
    if subscribers == [] then []
    else
      var s := subscribers[|subscribers| - 1];
      WithoutKeys(subscribers[..|subscribers| - 1], keys) + if Key(s.target) in keys then [] else [s]
  }

  datatype Poll = Poll(state: State, changed: bool, log: seq<Send>)

  function Polled(st: State, pending: seq<Request>, now: int, oracle: Oracle): Poll {
    var start := Pruned(st.notified, PendingIds(pending), now);
    var p := Delivered(st.subscribers, pending, now, oracle, start, |pending|);
    var left := WithoutKeys(st.subscribers, OneShotDelivered(st.subscribers, p.log));
    Poll(State(left, p.notified),
         start != st.notified || AnyOk(p.log) || |left| != |st.subscribers|,
         p.log)
  }

  // ---------- the program ----------

  lemma AnyOkConcat(a: seq<Send>, b: seq<Send>)
    ensures AnyOk(a + b) <==> AnyOk(a) || AnyOk(b)
  {
    if AnyOk(a) {
      var k :| 0 <= k < |a| && a[k].ok;
      assert (a + b)[k].ok;
    }
    if AnyOk(b) {
      var k :| 0 <= k < |b| && b[k].ok;
      assert (a + b)[|a| + k].ok;
    }
  }

  lemma AnyOkAppend(sends: seq<Send>, s: Send)
    ensures AnyOk(sends + [s]) <==> AnyOk(sends) || s.ok
  {
    AnyOkConcat(sends, [s]);
    if s.ok {
      assert [s][0].ok;
    }
  }

  lemma OneShotAppend(subscribers: seq<Subscriber>, a: seq<Send>, b: seq<Send>)
    ensures OneShotDelivered(subscribers, a + b) == OneShotDelivered(subscribers, a) + OneShotDelivered(subscribers, b)
  {
    forall key | key in OneShotDelivered(subscribers, a) ensures key in OneShotDelivered(subscribers, a + b) {
      var k :| 0 <= k < |a| && a[k].ok && a[k].subscriber < |subscribers| && subscribers[a[k].subscriber].mode == Once
               && Key(subscribers[a[k].subscriber].target) == key;
      assert (a + b)[k] == a[k];
    }
    forall key | key in OneShotDelivered(subscribers, b) ensures key in OneShotDelivered(subscribers, a + b) {
      var k :| 0 <= k < |b| && b[k].ok && b[k].subscriber < |subscribers| && subscribers[b[k].subscriber].mode == Once
               && Key(subscribers[b[k].subscriber].target) == key;
      assert (a + b)[|a| + k] == b[k];
    }
  }

  lemma OneShotSingle(subscribers: seq<Subscriber>, s: Send)
    requires s.subscriber < |subscribers|
    ensures OneShotDelivered(subscribers, [s])
            == if s.ok && subscribers[s.subscriber].mode == Once then {Key(subscribers[s.subscriber].target)} else {}
  {
    if s.ok && subscribers[s.subscriber].mode == Once {
      assert [s][0].ok;
    }
  }

  lemma {:induction false} WithoutNoKeys(subscribers: seq<Subscriber>)
    ensures WithoutKeys(subscribers, {}) == subscribers
  {
    if subscribers == [] {
    } else {
      WithoutNoKeys(subscribers[..|subscribers| - 1]);
    }
  }

  lemma {:induction false} NothingDelivered(pending: seq<Request>, now: int, oracle: Oracle, start: map<string, int>,
                                            k: nat)
    requires k <= |pending|
    ensures Delivered([], pending, now, oracle, start, k) == Progress(start, [])
  {
    if k == 0 {
    } else {
      NothingDelivered(pending, now, oracle, start, k - 1);
    }
  }

  /** The service and its command, over the state file they share.  Each method is one
      read-modify-write. */
  class PairNotifier {
    var file: File

    constructor ()
      ensures file == None
    {
      file := None;
    }

    /** The loop that forgets marks of requests that left the list or grew old. */
    method Prune(notified: map<string, int>, pendingIds: set<string>, now: int)
      returns (kept: map<string, int>, changed: bool)
      ensures kept == Pruned(notified, pendingIds, now)
      ensures changed <==> kept != notified
    {
      kept, changed := notified, false;
      var ids := notified.Keys;
      while ids != {}
        invariant ids <= notified.Keys
        invariant kept == map id | id in notified
                  && (id in ids || IsKept(id, notified[id], pendingIds, now)) :: notified[id]
        invariant changed <==> kept != notified
        decreases ids
      {
        var id :| id in ids;
        ids := ids - {id};
        if id !in pendingIds || now - notified[id] > NOTIFY_MAX_SEEN_AGE_MS {
          assert id in kept;
          kept := map x | x in kept && x != id :: kept[x];
          changed := true;
          assert id in notified && id !in kept;
        }
      }
    }

    /** The inner loop: one request offered to every subscriber. */
    method Offer(subscribers: seq<Subscriber>, r: Request, i: nat, oracle: Oracle, oneShot: set<string>)
      returns (sends: seq<Send>, delivered: bool, reached: set<string>)
      ensures sends == RequestSends(subscribers, r, i, oracle, |subscribers|)
      ensures delivered <==> AnyOk(sends)
      ensures reached == oneShot + OneShotDelivered(subscribers, sends)
    {
      sends, delivered, reached := [], false, oneShot;
      for j := 0 to |subscribers|
        invariant sends == RequestSends(subscribers, r, i, oracle, j)
        invariant delivered <==> AnyOk(sends)
        invariant reached == oneShot + OneShotDelivered(subscribers, sends)
      {
        if !ShouldNotify(subscribers[j], r) {
          continue;
        }
        var sent := oracle(i, j);
        ghost var before := sends;
        sends := sends + [Send(i, j, sent)];
        AnyOkAppend(before, Send(i, j, sent));
        OneShotAppend(subscribers, before, [Send(i, j, sent)]);
        OneShotSingle(subscribers, Send(i, j, sent));
        delivered := delivered || sent;
        if sent && subscribers[j].mode == Once {
          reached := reached + {Key(subscribers[j].target)};
        }
      }
    }

    /** The outer loop: the pending requests, in order. */
    method Deliver(subscribers: seq<Subscriber>, pending: seq<Request>, now: int, oracle: Oracle,
                   start: map<string, int>)
      returns (notified: map<string, int>, log: seq<Send>, oneShot: set<string>, marked: bool)
      ensures Progress(notified, log) == Delivered(subscribers, pending, now, oracle, start, |pending|)
      ensures oneShot == OneShotDelivered(subscribers, log)
      ensures marked <==> AnyOk(log)
    {
      notified, log, oneShot, marked := start, [], {}, false;
      for i := 0 to |pending|
        invariant Progress(notified, log) == Delivered(subscribers, pending, now, oracle, start, i)
        invariant oneShot == OneShotDelivered(subscribers, log)
        invariant marked <==> AnyOk(log)
      {
        if IsSeen(notified, pending[i].id) {
          continue;
        }
        var sends, delivered, reached := Offer(subscribers, pending[i], i, oracle, oneShot);
        OneShotAppend(subscribers, log, sends);
        AnyOkConcat(log, sends);
        oneShot := reached;
        log := log + sends;
        if delivered {
          notified := notified[pending[i].id := now];
          marked := true;
        }
      }
    }

    method RemoveKeys(subscribers: seq<Subscriber>, keys: set<string>) returns (left: seq<Subscriber>)
      ensures left == WithoutKeys(subscribers, keys)
    {
      left := [];
      for j := 0 to |subscribers|
        invariant left == WithoutKeys(subscribers[..j], keys)
      {
        assert subscribers[..j + 1][..j] == subscribers[..j];
        if Key(subscribers[j].target) !in keys {
          left := left + [subscribers[j]];
        }
      }
      assert subscribers[..|subscribers|] == subscribers;
    }

    /** notifyPendingPairingRequests. */
    method NotifyPending(pending: seq<Request>, now: int, oracle: Oracle) returns (log: seq<Send>)
      modifies this
      ensures var p := Polled(ReadState(old(file), now), pending, now, oracle);
              log == p.log && file == if p.changed then Some(WriteState(p.state)) else old(file)
    {
      var st := ReadState(file, now);
      var subscribers := st.subscribers;
      var notified, changed := Prune(st.notified, PendingIds(pending), now);
      log := [];
      if |subscribers| > 0 {
        var oneShot, marked;
        notified, log, oneShot, marked := Deliver(subscribers, pending, now, oracle, notified);
        if marked {
          changed := true;
        }
        if oneShot != {} {
          var left := RemoveKeys(subscribers, oneShot);
          if |left| != |subscribers| {
            changed := true;
          }
          subscribers := left;
        } else {
          WithoutNoKeys(subscribers);
        }
      } else {
        assert subscribers == [];
        NothingDelivered(pending, now, oracle, notified, |pending|);
      }
      if changed {
        file := Some(WriteState(State(subscribers, notified)));
      }
    }

    method FindIndex(subscribers: seq<Subscriber>, key: string) returns (index: int)
      ensures index == if FindKey(subscribers, key) == |subscribers| then -1 else FindKey(subscribers, key)
    {
      for i := 0 to |subscribers|
        invariant forall k :: 0 <= k < i ==> Key(subscribers[k].target) != key
      {
        if Key(subscribers[i].target) == key {
          return i;
        }
      }
      index := -1;
    }

    /** upsertNotifySubscriber. */
    method Upsert(subscribers: seq<Subscriber>, target: Target, mode: Mode, now: int)
      returns (next: seq<Subscriber>, changed: bool)
      ensures (next, changed) == Upserted(subscribers, target, mode, now)
    {
      var index := FindIndex(subscribers, Key(target));
      if index == -1 {
        return subscribers + [Subscriber(target, mode, now)], true;
      }
      if subscribers[index].mode == mode {
        return subscribers, false;
      }
      return subscribers[index := Subscriber(target, mode, now)], true;
    }

    /** The `on`, `off` and `once` actions of handleNotifyCommand. */
    method HandleCommand(command: Command, now: int)
      modifies this
      ensures var (st, changed) := Applied(command, ReadState(old(file), now), now);
              file == if changed then Some(WriteState(st)) else old(file)
    {
      var st := ReadState(file, now);
      if command.Off? {
        var index := FindIndex(st.subscribers, Key(command.target));
        if index != -1 {
          var left := st.subscribers[..index] + st.subscribers[index + 1..];
          file := Some(WriteState(st.(subscribers := left)));
        }
      } else {
        var mode := if command.On? then Persistent else Once;
        var subscribers, changed := Upsert(st.subscribers, command.target, mode, now);
        if changed {
          file := Some(WriteState(st.(subscribers := subscribers)));
        }
      }
    }
  }
}

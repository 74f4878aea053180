/** Coordination of several agents in Slack threads (extensions/thread-ownership/index.ts):
    a cache of recent mentions, and a claim with a forwarder before an agent answers. */
module ThreadOwnership {
  import opened Text

  const MENTION_TTL_MS: int := 5 * 60 * 1000

  type Mentions = map<string, int>

  /** The cache key of a thread. */
  function Key(channel: string, thread: string): string {
    channel + ":" + thread
  }

  function Cleaned(m: Mentions, now: int): Mentions {
    map k | k in m && now - m[k] <= MENTION_TTL_MS :: m[k]
  }

  /** What the forwarder answers to a claim. */
  datatype Response = Ok | Conflict | Other | Unreachable

  datatype Verdict = Send | Cancel

  datatype Config = Config(agentId: string, abTestChannels: set<string>)

  /** Whether a mention in this message is recorded. */
  predicate Records(isSlack: bool, channel: string, thread: string, mentioned: bool) {
    isSlack && thread != "" && channel != "" && mentioned
  }

  /** Whether a message to the thread is subject to ownership at all. */
  predicate Enforced(c: Config, isSlack: bool, channel: string, thread: string) {
    isSlack && thread != "" && (c.abTestChannels == {} || channel in c.abTestChannels)
  }

  /** Whether a message needs a claim: its thread is enforced and has no live mention. */
  predicate NeedsClaim(c: Config, m: Mentions, isSlack: bool, channel: string, thread: string, now: int) {
    Enforced(c, isSlack, channel, thread) && Key(channel, thread) !in Cleaned(m, now)
  }

  /** The mentions after a message was sent or cancelled. */
  function Dispatched(c: Config, m: Mentions, isSlack: bool, channel: string, thread: string, now: int): Mentions {
    if Enforced(c, isSlack, channel, thread) then Cleaned(m, now) else m
  }

  function Received(m: Mentions, isSlack: bool, channel: string, thread: string, mentioned: bool, now: int): Mentions {
    if Records(isSlack, channel, thread, mentioned) then Cleaned(m, now)[Key(channel, thread) := now] else m
  }

  /** The plugin in one agent process, with its module-level map of mentions. */
  class Agent {
    const config: Config
    var mentionedThreads: Mentions

    constructor (config: Config)
      ensures this.config == config && mentionedThreads == map[]
    {
      this.config := config;
      mentionedThreads := map[];
    }

    /** cleanExpiredMentions. */
    method CleanExpiredMentions(now: int)
      modifies this
      ensures mentionedThreads == Cleaned(old(mentionedThreads), now)
    {
      var keys := mentionedThreads.Keys;
      ghost var m := mentionedThreads;
      while keys != {}
        invariant keys <= m.Keys
        invariant mentionedThreads == map k | k in m && (k in keys || now - m[k] <= MENTION_TTL_MS) :: m[k]
        decreases keys
      {
        var key :| key in keys;
        keys := keys - {key};
        if now - mentionedThreads[key] > MENTION_TTL_MS {
          mentionedThreads := map k | k in mentionedThreads && k != key :: mentionedThreads[k];
        }
      }
    }

    /** The message_received handler. */
    method MessageReceived(isSlack: bool, channel: string, thread: string, mentioned: bool, now: int)
      modifies this
      ensures mentionedThreads == Received(old(mentionedThreads), isSlack, channel, thread, mentioned, now)
      ensures !isSlack || thread == "" || channel == "" || !mentioned ==> mentionedThreads == old(mentionedThreads)
    {
      if !isSlack {
        return;
      }
      if thread == "" || channel == "" {
        return;
      }
      if mentioned {
        CleanExpiredMentions(now);
        mentionedThreads := mentionedThreads[Key(channel, thread) := now];
      }
    }

    /** The message_sending handler, with the answer the forwarder would give; it is asked
        only when the thread is enforced and has no live mention. */
    method MessageSending(isSlack: bool, channel: string, thread: string, now: int, answer: Response)
      returns (asked: bool, verdict: Verdict)
      modifies this
      ensures asked <==> NeedsClaim(config, old(mentionedThreads), isSlack, channel, thread, now)
      ensures verdict == if asked && answer == Conflict then Cancel else Send
      ensures mentionedThreads == Dispatched(config, old(mentionedThreads), isSlack, channel, thread, now)
    {
      if !isSlack {
        return false, Send;
      }
      if thread == "" {
        return false, Send;
      }
      if config.abTestChannels != {} && channel !in config.abTestChannels {
        return false, Send;
      }
      CleanExpiredMentions(now);
      if Key(channel, thread) in mentionedThreads {
        return false, Send;
      }
      if answer == Ok {
        return true, Send;
      }
      if answer == Conflict {
        return true, Cancel;
      }
      return true, Send;
    }
  }

  // ---------- many agents and one forwarder ----------

  datatype Event =
    | Receive(agent: nat, isSlack: bool, channel: string, thread: string, mentioned: bool, now: int)
    | Dispatch(agent: nat, isSlack: bool, channel: string, thread: string, now: int)

  /** The mention caches of the agents, and the owners the forwarder has recorded by URL path. */
  datatype System = System(mentions: seq<Mentions>, owners: map<string, string>)

  function Route(channel: string, thread: string): string {
    channel + "/" + thread
  }

  /** A first-claim-wins forwarder that answers 200 or 409 only. */
  function Answer(owners: map<string, string>, route: string, agentId: string): Response {
    if route in owners && owners[route] != agentId then Conflict else Ok
  }

  predicate Asks(configs: seq<Config>, s: System, e: Event)
    requires e.Dispatch? && e.agent < |configs| == |s.mentions|
  {
    NeedsClaim(configs[e.agent], s.mentions[e.agent], e.isSlack, e.channel, e.thread, e.now)
  }

  function Decision(configs: seq<Config>, s: System, e: Event): Verdict
    requires e.Dispatch? && e.agent < |configs| == |s.mentions|
  {
    if Asks(configs, s, e) && Answer(s.owners, Route(e.channel, e.thread), configs[e.agent].agentId) == Conflict
    then Cancel else Send
  }

  function Step(configs: seq<Config>, s: System, e: Event): System
    requires e.agent < |configs| == |s.mentions|
  {
    match e
    case Receive(a, isSlack, channel, thread, mentioned, now) =>
      s.(mentions := s.mentions[a := Received(s.mentions[a], isSlack, channel, thread, mentioned, now)])
    case Dispatch(a, isSlack, channel, thread, now) =>
      var route := Route(channel, thread);
      System(s.mentions[a := Dispatched(configs[a], s.mentions[a], isSlack, channel, thread, now)],
             if Asks(configs, s, e) && route !in s.owners then s.owners[route := configs[a].agentId] else s.owners)
  }

  /** A run of the agents from empty caches and an empty forwarder, with a monotone clock. */
  ghost predicate IsRun(configs: seq<Config>, systems: seq<System>, events: seq<Event>) {
    && |systems| == |events| + 1
    && |systems[0].mentions| == |configs| && systems[0].owners == map[]
    && (forall a :: 0 <= a < |configs| ==> systems[0].mentions[a] == map[])
    && (forall k :: 0 <= k < |events| ==>
          events[k].agent < |configs| == |systems[k].mentions|
            && systems[k + 1] == Step(configs, systems[k], events[k]))
    && (forall i, j :: 0 <= i <= j < |events| ==> events[i].now <= events[j].now)
  }

  /** The agent is mentioned in a thread on Slack. */
  predicate MentionsIn(e: Event, agent: nat, channel: string, thread: string) {
    && e.Receive? && e.agent == agent && e.isSlack && e.mentioned
    && e.channel == channel && e.thread == thread && channel != "" && thread != ""
  }

  predicate IsMention(e: Event, agent: nat, key: string) {
    MentionsIn(e, agent, e.channel, e.thread) && Key(e.channel, e.thread) == key
  }

  /** The time of the agent's latest mention under the key among the first k events. */
  function LastMention(events: seq<Event>, k: nat, agent: nat, key: string): Option<int>
    requires k <= |events|
  {
    if k == 0 then None
    else if IsMention(events[k - 1], agent, key) then Some(events[k - 1].now)
    else LastMention(events, k - 1, agent, key)
  }

  /** A mention lives for five minutes. */
  predicate IsLive(mention: Option<int>, now: int) {
    mention.Some? && now - mention.value <= 300_000
  }

  /** A message that does not mention the agent leaves all caches alone. */
  lemma UnmentionedIsIgnored(configs: seq<Config>, s: System, e: Event)
    requires e.agent < |configs| == |s.mentions| && e.Receive? && !e.mentioned
    ensures Step(configs, s, e) == s
  {
  }

  /** An entry of the cache is the latest mention, and a live mention has an entry. */
  ghost predicate Tracks(m: Mentions, events: seq<Event>, k: nat, agent: nat, now: int)
    requires k <= |events|
  {
    forall key :: (key in m ==> LastMention(events, k, agent, key) == Some(m[key]))
               && (IsLive(LastMention(events, k, agent, key), now) ==> key in m)
  }

  lemma {:induction false} CacheTracks(configs: seq<Config>, systems: seq<System>, events: seq<Event>, k: nat,
                                       agent: nat, now: int)
    requires IsRun(configs, systems, events) && k <= |events| && agent < |configs|
    requires k > 0 ==> events[k - 1].now <= now
    ensures |systems[k].mentions| == |configs|
    ensures Tracks(systems[k].mentions[agent], events, k, agent, now)
  {
    if k == 0 {
    } else {
      var e := events[k - 1];
      CacheTracks(configs, systems, events, k - 1, agent, e.now);
      assert systems[k] == Step(configs, systems[k - 1], e);
    }
  }

  /** After cleaning, the cache holds a key exactly when its latest mention in the whole history is
      at most five minutes old. */
  lemma {:induction false} CacheMeansLiveMention(configs: seq<Config>, systems: seq<System>, events: seq<Event>,
                                                 k: nat, agent: nat, key: string, now: int)
    requires IsRun(configs, systems, events) && k <= |events| && agent < |configs|
    requires k > 0 ==> events[k - 1].now <= now
    ensures |systems[k].mentions| == |configs|
    ensures key in Cleaned(systems[k].mentions[agent], now) <==> IsLive(LastMention(events, k, agent, key), now)
  {
    CacheTracks(configs, systems, events, k, agent, now);
  }

  // ---------- one owner per thread ----------

  /** The k-th event sends to a Slack thread whose key has no live mention, in a channel the agent's
      test covers. */
  ghost predicate IsContested(configs: seq<Config>, events: seq<Event>, k: nat)
    requires k < |events|
  {
    var e := events[k];
    && e.Dispatch? && e.agent < |configs| && e.isSlack && e.thread != ""
    && (configs[e.agent].abTestChannels == {} || e.channel in configs[e.agent].abTestChannels)
    && !IsLive(LastMention(events, k, e.agent, Key(e.channel, e.thread)), e.now)
  }

  lemma ContestedAsks(configs: seq<Config>, systems: seq<System>, events: seq<Event>, k: nat)
    requires IsRun(configs, systems, events) && k < |events| && events[k].Dispatch?
    ensures events[k].agent < |configs| == |systems[k].mentions|
    ensures Asks(configs, systems[k], events[k]) <==> IsContested(configs, events, k)
  {
    var e := events[k];
    CacheMeansLiveMention(configs, systems, events, k, e.agent, Key(e.channel, e.thread), e.now);
  }

  lemma {:induction false} OwnerIsForever(configs: seq<Config>, systems: seq<System>, events: seq<Event>, i: nat,
                                          j: nat, route: string)
    requires IsRun(configs, systems, events) && i <= j <= |events| && route in systems[i].owners
    ensures route in systems[j].owners && systems[j].owners[route] == systems[i].owners[route]
    decreases j - i
  {
    if i >= j {
    } else {
      assert systems[i + 1] == Step(configs, systems[i], events[i]);
      OwnerIsForever(configs, systems, events, i + 1, j, route);
    }
  }

  /** A contested message is sent exactly when its agent owns the thread afterwards. */
  lemma SentIffOwner(configs: seq<Config>, systems: seq<System>, events: seq<Event>, k: nat)
    requires IsRun(configs, systems, events) && k < |events| && IsContested(configs, events, k)
    ensures events[k].agent < |configs| == |systems[k].mentions|
    ensures var e := events[k]; var route := Route(e.channel, e.thread);
            route in systems[k + 1].owners
            && (Decision(configs, systems[k], e) == Send <==> systems[k + 1].owners[route] == configs[e.agent].agentId)
  {
    ContestedAsks(configs, systems, events, k);
    assert systems[k + 1] == Step(configs, systems[k], events[k]);
  }

  /** The i-th and the j-th event are contested messages to the thread that are both sent. */
  ghost predicate BothSend(configs: seq<Config>, systems: seq<System>, events: seq<Event>, i: nat, j: nat,
                           channel: string, thread: string)
    requires i < |events| && j < |events| && |systems| == |events| + 1
  {
    && IsContested(configs, events, i) && IsContested(configs, events, j)
    && events[i].channel == events[j].channel == channel && events[i].thread == events[j].thread == thread
    && |systems[i].mentions| == |systems[j].mentions| == |configs|
    && Decision(configs, systems[i], events[i]) == Send && Decision(configs, systems[j], events[j]) == Send
  }

  /** In any run, all contested messages sent to one thread come from agents of one id. */
  lemma OneIdPerThread(configs: seq<Config>, systems: seq<System>, events: seq<Event>, i: nat, j: nat,
                       channel: string, thread: string)
    requires IsRun(configs, systems, events) && i < j < |events|
    requires BothSend(configs, systems, events, i, j, channel, thread)
    ensures configs[events[i].agent].agentId == configs[events[j].agent].agentId
  {
    SentIffOwner(configs, systems, events, i);
    SentIffOwner(configs, systems, events, j);
    OwnerIsForever(configs, systems, events, i + 1, j + 1, Route(channel, thread));
  }

  /** The agents that ownership of the thread applies to have different ids. */
  ghost predicate IdsDiffer(configs: seq<Config>, channel: string, thread: string) {
    forall a, b :: 0 <= a < b < |configs|
                   && Enforced(configs[a], true, channel, thread) && Enforced(configs[b], true, channel, thread)
                   ==> configs[a].agentId != configs[b].agentId
  }

  /** In no run do two agents both send contested messages to the thread. */
  ghost predicate OneAgentSends(configs: seq<Config>, channel: string, thread: string) {
    forall systems: seq<System>, events: seq<Event>, i: nat, j: nat ::
      IsRun(configs, systems, events) && i < j < |events| && BothSend(configs, systems, events, i, j, channel, thread)
      ==> events[i].agent == events[j].agent
  }

  lemma OneAgentPerThread(configs: seq<Config>, systems: seq<System>, events: seq<Event>, i: nat, j: nat,
                          channel: string, thread: string)
    requires IdsDiffer(configs, channel, thread)
    requires IsRun(configs, systems, events) && i < j < |events|
    requires BothSend(configs, systems, events, i, j, channel, thread)
    ensures events[i].agent == events[j].agent
  {
    OneIdPerThread(configs, systems, events, i, j, channel, thread);
  }

  function Idle(configs: seq<Config>): System {
    System(seq(|configs|, _ => map[]), map[])
  }

  /** Two agents of one id send to the thread, one after the other. */
  function SharedIdEvents(a: nat, b: nat, channel: string, thread: string): seq<Event> {
    [Dispatch(a, true, channel, thread, 0), Dispatch(b, true, channel, thread, 0)]
  }

  function SharedIdRun(configs: seq<Config>, a: nat, b: nat, channel: string, thread: string): (systems: seq<System>)
    requires a < |configs| && b < |configs|
  {
    var events := SharedIdEvents(a, b, channel, thread);
    var one := Step(configs, Idle(configs), events[0]);
    [Idle(configs), one, Step(configs, one, events[1])]
  }

  /** Two agents of one id that the thread is enforced for both send to it in some run. */
  lemma SharedIdBothSend(configs: seq<Config>, a: nat, b: nat, channel: string, thread: string)
    requires a < |configs| && b < |configs| && configs[a].agentId == configs[b].agentId
    requires Enforced(configs[a], true, channel, thread) && Enforced(configs[b], true, channel, thread)
    ensures var systems, events := SharedIdRun(configs, a, b, channel, thread), SharedIdEvents(a, b, channel, thread);
            IsRun(configs, systems, events) && BothSend(configs, systems, events, 0, 1, channel, thread)
  {
    var systems, events := SharedIdRun(configs, a, b, channel, thread), SharedIdEvents(a, b, channel, thread);
    assert IsRun(configs, systems, events);
    assert LastMention(events, 0, a, Key(channel, thread)) == None;
    assert LastMention(events, 1, b, Key(channel, thread)) == None;
    assert IsContested(configs, events, 0) && IsContested(configs, events, 1);
  }

  /** All contested messages sent to a thread come from one agent, in every run, exactly when the
      agents that ownership of the thread applies to have different ids. */
  lemma OneAgentIff(configs: seq<Config>, channel: string, thread: string)
    ensures OneAgentSends(configs, channel, thread) <==> IdsDiffer(configs, channel, thread)
  {
    if IdsDiffer(configs, channel, thread) {
      forall systems: seq<System>, events: seq<Event>, i: nat, j: nat |
        IsRun(configs, systems, events) && i < j < |events| && BothSend(configs, systems, events, i, j, channel, thread)
        ensures events[i].agent == events[j].agent
      {
        OneAgentPerThread(configs, systems, events, i, j, channel, thread);
      }
    } else {
      var a, b :| 0 <= a < b < |configs|
                  && Enforced(configs[a], true, channel, thread) && Enforced(configs[b], true, channel, thread)
                  && configs[a].agentId == configs[b].agentId;
      SharedIdBothSend(configs, a, b, channel, thread);
      var systems, events := SharedIdRun(configs, a, b, channel, thread), SharedIdEvents(a, b, channel, thread);
      assert IsRun(configs, systems, events) && BothSend(configs, systems, events, 0, 1, channel, thread);
      assert events[0].agent != events[1].agent;
    }
  }

  lemma {:induction false} UnclaimedHasNoOwner(configs: seq<Config>, systems: seq<System>, events: seq<Event>, k: nat,
                                               route: string)
    requires IsRun(configs, systems, events) && k <= |events|
    requires forall i :: 0 <= i < k && IsContested(configs, events, i) ==>
               Route(events[i].channel, events[i].thread) != route
    ensures route !in systems[k].owners
  {
    if k == 0 {
    } else {
      UnclaimedHasNoOwner(configs, systems, events, k - 1, route);
      assert systems[k] == Step(configs, systems[k - 1], events[k - 1]);
      if events[k - 1].Dispatch? {
        ContestedAsks(configs, systems, events, k - 1);
      }
    }
  }

  /** The first contested message of a thread always goes out: no thread is left without an
      agent that may answer. */
  lemma FirstContestedIsSent(configs: seq<Config>, systems: seq<System>, events: seq<Event>, k: nat)
    requires IsRun(configs, systems, events) && k < |events| && IsContested(configs, events, k)
    requires forall i :: 0 <= i < k && IsContested(configs, events, i) ==>
               Route(events[i].channel, events[i].thread) != Route(events[k].channel, events[k].thread)
    ensures events[k].agent < |configs| == |systems[k].mentions|
    ensures Decision(configs, systems[k], events[k]) == Send
  {
    ContestedAsks(configs, systems, events, k);
    UnclaimedHasNoOwner(configs, systems, events, k, Route(events[k].channel, events[k].thread));
  }

  /** Without a slash in the channel, the path names the channel and the thread. */
  lemma RouteInjective(c: string, t: string, d: string, u: string)
    requires '/' !in c && '/' !in d
    ensures Route(c, t) == Route(d, u) <==> c == d && t == u
  {
    if Route(c, t) == Route(d, u) {
      assert Route(c, t)[|c|] == '/' && Route(d, u)[|d|] == '/';
      assert Route(c, t)[..|c|] == c && Route(d, u)[..|d|] == d;
      assert Route(c, t)[|c| + 1..] == t && Route(d, u)[|d| + 1..] == u;
    }
  }

  /** So it does not matter what was claimed in other threads. */
  lemma FirstInThreadIsSent(configs: seq<Config>, systems: seq<System>, events: seq<Event>, k: nat)
    requires IsRun(configs, systems, events) && k < |events| && IsContested(configs, events, k)
    requires forall i :: 0 <= i <= k && events[i].Dispatch? ==> '/' !in events[i].channel
    requires forall i :: 0 <= i < k && IsContested(configs, events, i) ==>
               events[i].channel != events[k].channel || events[i].thread != events[k].thread
    ensures events[k].agent < |configs| == |systems[k].mentions|
    ensures Decision(configs, systems[k], events[k]) == Send
  {
    forall i | 0 <= i < k && IsContested(configs, events, i)
      ensures Route(events[i].channel, events[i].thread) != Route(events[k].channel, events[k].thread)
    {
      RouteInjective(events[i].channel, events[i].thread, events[k].channel, events[k].thread);
    }
    FirstContestedIsSent(configs, systems, events, k);
  }

  // ---------- threads and their keys ----------

  /** Within a channel the key tells threads apart. */
  lemma KeyInjective(c: string, t: string, u: string)
    ensures Key(c, t) == Key(c, u) <==> t == u
  {
    assert Key(c, t)[|c| + 1..] == t && Key(c, u)[|c| + 1..] == u;
  }

  /** One of the channels continues the other with a colon. */
  predicate Meet(c: string, d: string) {
    c + ":" <= d || d + ":" <= c
  }

  lemma KeyContinues(c: string, t: string, d: string, u: string)
    requires Key(c, t) == Key(d, u) && |c| <= |d| && c != d
    ensures c + ":" <= d
  {
    var key := Key(d, u);
    assert c == Key(c, t)[..|c|] && key[..|d|] == d;
    assert |c| == |d| ==> c == d;
    assert key[|c|] == ':' && key[..|c| + 1] == c + ":" && key[..|c| + 1] == d[..|c| + 1];
  }

  lemma SameKeysMeet(c: string, t: string, d: string, u: string)
    requires c != d && Key(c, t) == Key(d, u)
    ensures Meet(c, d)
  {
    if |c| < |d| {
      KeyContinues(c, t, d, u);
    } else {
      KeyContinues(d, u, c, t);
    }
  }

  lemma ContinuedKey(c: string, d: string, u: string)
    requires c + ":" <= d
    ensures Key(c, d[|c| + 1..] + ":" + u) == Key(d, u)
  {
    assert d == c + ":" + d[|c| + 1..];
  }

  /** Two different channels have threads with one cache key exactly when one of them continues
      the other with a colon; in particular never when channels hold no colon.  The threads can
      be any that the handlers record and look up, which the empty one is not. */
  lemma KeysMeetIff(c: string, d: string)
    requires c != d
    ensures (exists t, u :: t != "" && u != "" && Key(c, t) == Key(d, u)) <==> Meet(c, d)
  {
    if t, u :| t != "" && u != "" && Key(c, t) == Key(d, u) {
      SameKeysMeet(c, t, d, u);
    }
    if c + ":" <= d {
      ContinuedKey(c, d, "x");
    }
    if d + ":" <= c {
      ContinuedKey(d, c, "x");
    }
  }

  /** The time of the agent's latest mention in the thread itself among the first k events. */
  function LastThreadMention(events: seq<Event>, k: nat, agent: nat, channel: string, thread: string): Option<int>
    requires k <= |events|
  {
    if k == 0 then None
    else if MentionsIn(events[k - 1], agent, channel, thread) then Some(events[k - 1].now)
    else LastThreadMention(events, k - 1, agent, channel, thread)
  }

  /** The agent has been mentioned in no other channel that meets the channel. */
  ghost predicate NoneMeets(events: seq<Event>, k: nat, agent: nat, channel: string)
    requires k <= |events|
  {
    forall i :: 0 <= i < k && events[i].Receive? && events[i].agent == agent && events[i].channel != channel ==>
      !Meet(events[i].channel, channel)
  }

  lemma {:induction false} LastMentionsAgree(events: seq<Event>, k: nat, agent: nat, channel: string, thread: string)
    requires k <= |events| && NoneMeets(events, k, agent, channel)
    ensures LastThreadMention(events, k, agent, channel, thread) == LastMention(events, k, agent, Key(channel, thread))
  {
    if k == 0 {
    } else {
      var e := events[k - 1];
      LastMentionsAgree(events, k - 1, agent, channel, thread);
      if IsMention(e, agent, Key(channel, thread)) {
        if e.channel == channel {
          KeyInjective(channel, e.thread, thread);
        } else {
          SameKeysMeet(e.channel, e.thread, channel, thread);
        }
      }
    }
  }

  /** After cleaning, a thread is cached exactly when its own latest mention in the whole history is
      at most five minutes old, as long as the agent was mentioned in no channel that meets its. */
  lemma CachedIffThreadIsLive(configs: seq<Config>, systems: seq<System>, events: seq<Event>, k: nat, agent: nat,
                              channel: string, thread: string, now: int)
    requires IsRun(configs, systems, events) && k <= |events| && agent < |configs|
    requires (k > 0 ==> events[k - 1].now <= now) && NoneMeets(events, k, agent, channel)
    ensures |systems[k].mentions| == |configs|
    ensures Key(channel, thread) in Cleaned(systems[k].mentions[agent], now)
            <==> IsLive(LastThreadMention(events, k, agent, channel, thread), now)
  {
    CacheMeansLiveMention(configs, systems, events, k, agent, Key(channel, thread), now);
    LastMentionsAgree(events, k, agent, channel, thread);
  }

  /** An agent is mentioned in thread t of channel c, and then sends to thread u of channel d. */
  function MentionThenSend(c: string, t: string, d: string, u: string): seq<Event> {
    [Receive(0, true, c, t, true, 0), Dispatch(0, true, d, u, 0)]
  }

  function MentionedRun(config: Config, c: string, t: string, d: string, u: string): (systems: seq<System>)
    ensures |systems| == 3 && |systems[1].mentions| == 1
  {
    var events := MentionThenSend(c, t, d, u);
    var one := Step([config], Idle([config]), events[0]);
    [Idle([config]), one, Step([config], one, events[1])]
  }

  /** That is a run, and the agent sends without asking exactly when the keys are the same. */
  lemma SilencedIff(config: Config, c: string, t: string, d: string, u: string)
    requires c != "" && t != "" && Enforced(config, true, d, u)
    ensures var systems, events := MentionedRun(config, c, t, d, u), MentionThenSend(c, t, d, u);
            && IsRun([config], systems, events)
            && (!Asks([config], systems[1], events[1]) <==> Key(c, t) == Key(d, u))
  {
    var systems, events := MentionedRun(config, c, t, d, u), MentionThenSend(c, t, d, u);
    assert systems[1] == Step([config], systems[0], events[0]);
    assert systems[1].mentions[0] == map[Key(c, t) := 0];
  }

  /** A mention in some thread of channel c makes the agent send to some thread of another channel d
      without asking exactly when the channels meet. */
  lemma ChannelSilencesIff(config: Config, c: string, d: string)
    requires c != "" && c != d && (config.abTestChannels == {} || d in config.abTestChannels)
    ensures (exists t, u :: t != "" && u != "" && !Asks([config], MentionedRun(config, c, t, d, u)[1],
                                                         MentionThenSend(c, t, d, u)[1]))
            <==> Meet(c, d)
  {
    forall t: string, u: string | t != "" && u != ""
      ensures !Asks([config], MentionedRun(config, c, t, d, u)[1], MentionThenSend(c, t, d, u)[1])
              <==> Key(c, t) == Key(d, u)
    {
      SilencedIff(config, c, t, d, u);
    }
    KeysMeetIff(c, d);
  }

  /** For instance a mention in the thread `b:x` of channel `a` silences the thread `x` of `a:b`. */
  lemma ColonIsSilenced(agentId: string)
    ensures var config := Config(agentId, {});
            !Asks([config], MentionedRun(config, "a", "b:x", "a:b", "x")[1], MentionThenSend("a", "b:x", "a:b", "x")[1])
  {
    SilencedIff(Config(agentId, {}), "a", "b:x", "a:b", "x");
  }
}

/** The in-process event bus: a bounded history and synchronous fan-out, under any
    interleaving of publishers, subscribers and deliveries. */
module EventBus {
  import opened Prelude
  import opened Bounded

  datatype Event = Event(topic: string, timestamp: string, payload: string)

  /** A registered callable, named. */
  type Handler = nat

  /** One call of a handler with an event. */
  datatype Call = Call(handler: Handler, event: Event)

  function HandlersOf(subscribers: map<string, seq<Handler>>, topic: string): seq<Handler> {
    if topic in subscribers then subscribers[topic] else []
  }

  function CallsFor(handlers: seq<Handler>, event: Event): seq<Call> {
    seq(|handlers|, i requires 0 <= i < |handlers| => Call(handlers[i], event))
  }

  /** The calls whose exception is logged and swallowed. */
  function Failing(calls: seq<Call>, raises: (Handler, Event) -> bool): seq<Call> {
    if calls == [] then []
    else
      var last := calls[|calls| - 1];
      Failing(calls[..|calls| - 1], raises) + if raises(last.handler, last.event) then [last] else []
  }

  /** `[e for e in history if topic is None or e["topic"] == topic]`. */
  function Matching(history: seq<Event>, topic: Option<string>): seq<Event> {
    if history == [] then []
    else
      var last := history[|history| - 1];
      Matching(history[..|history| - 1], topic) + if topic.None? || last.topic == topic.value then [last] else []
  }

  class InProcessEventBus {
    const historyLimit: int
    /** Whether a handler raises on an event; the bus logs it and goes on. */
    const raises: (Handler, Event) -> bool
    var subscribers: map<string, seq<Handler>>
    var history: seq<Event>
    var calls: seq<Call>
    var failed: seq<Call>

    constructor (historyLimit: int, raises: (Handler, Event) -> bool)
      ensures this.historyLimit == historyLimit && this.raises == raises
      ensures subscribers == map[] && history == [] && calls == [] && failed == []
    {
      this.historyLimit := historyLimit;
      this.raises := raises;
      subscribers, history, calls, failed := map[], [], [], [];
    }

    method Publish(topic: string, timestamp: string, payload: string) returns (event: Event)
      modifies this
      ensures event == Event(topic, timestamp, payload)
      ensures history == Kept(old(history), [event], historyLimit)
      ensures calls == old(calls) + CallsFor(HandlersOf(old(subscribers), topic), event)
      ensures failed == old(failed) + Failing(CallsFor(HandlersOf(old(subscribers), topic), event), raises)
      ensures subscribers == old(subscribers)
    {
      event := Event(topic, timestamp, payload);
      history := history + [event];
      if |history| > historyLimit {
        history := PySuffix(history, historyLimit);
      }
      var handlers := HandlersOf(subscribers, topic);
      for i := 0 to |handlers|
        invariant calls == old(calls) + CallsFor(handlers, event)[..i]
        invariant failed == old(failed) + Failing(CallsFor(handlers, event)[..i], raises)
        invariant subscribers == old(subscribers) && history == Kept(old(history), [event], historyLimit)
      {
        var call := Call(handlers[i], event);
        assert CallsFor(handlers, event)[..i + 1] == CallsFor(handlers, event)[..i] + [call];
        calls := calls + [call];
        if raises(handlers[i], event) {
          failed := failed + [call];
        }
      }
      assert CallsFor(handlers, event)[..|handlers|] == CallsFor(handlers, event);
    }

    method Subscribe(topic: string, handler: Handler)
      modifies this
      ensures subscribers == old(subscribers)[topic := HandlersOf(old(subscribers), topic) + [handler]]
      ensures history == old(history) && calls == old(calls) && failed == old(failed)
    {
      if topic !in subscribers {
        subscribers := subscribers[topic := []];
      }
      subscribers := subscribers[topic := subscribers[topic] + [handler]];
    }

    method Recent(topic: Option<string>, limit: int) returns (events: seq<Event>)
      ensures events == PySuffix(Matching(history, topic), limit)
    {
      var matching: seq<Event> := [];
      for i := 0 to |history|
        invariant matching == Matching(history[..i], topic)
      {
        assert history[..i + 1][..i] == history[..i];
        if topic.None? || history[i].topic == topic.value {
          matching := matching + [history[i]];
        }
      }
      assert history[..|history|] == history;
      return PySuffix(matching, limit);
    }
  }

  // ------------------------------------------------------------ interleavings

  /** A publish call past its lock step: the handlers it copied and how many it has called. */
  datatype Publication = Publication(event: Event, handlers: seq<Handler>, done: nat)

  datatype Bus = Bus(
    subscribers: map<string, seq<Handler>>,
    history: seq<Event>,
    publications: seq<Publication>,
    /** Handler calls in the order they happen, each with the publication making it. */
    log: seq<(nat, Call)>)

  /** An atomic step of some thread. `Deliver(i)` lets publication `i` call its next handler. */
  datatype Step = Lock(event: Event) | Subscribe(topic: string, handler: Handler) | Deliver(publication: nat)

  function Next(b: Bus, step: Step, limit: int): Bus {
    match step
    case Lock(e) =>
      b.(history := Kept(b.history, [e], limit),
         publications := b.publications + [Publication(e, HandlersOf(b.subscribers, e.topic), 0)])
    case Subscribe(topic, h) =>
      b.(subscribers := b.subscribers[topic := HandlersOf(b.subscribers, topic) + [h]])
    case Deliver(i) =>
      if i >= |b.publications| || b.publications[i].done >= |b.publications[i].handlers| then b
      else
        var p := b.publications[i];
        b.(publications := b.publications[i := p.(done := p.done + 1)],
           log := b.log + [(i, Call(p.handlers[p.done], p.event))])
  }

  function Run(steps: seq<Step>, limit: int): Bus {
    if steps == [] then Bus(map[], [], [], [])
    else Next(Run(steps[..|steps| - 1], limit), steps[|steps| - 1], limit)
  }

  /** The events in the order their publishers took the lock. */
  function Published(steps: seq<Step>): seq<Event> {
    if steps == [] then []
    else
      var last := steps[|steps| - 1];
      Published(steps[..|steps| - 1]) + if last.Lock? then [last.event] else []
  }

  /** The handlers registered for a topic, in order of registration. */
  function Registered(steps: seq<Step>, topic: string): seq<Handler> {
    if steps == [] then []
    else
      var last := steps[|steps| - 1];
      Registered(steps[..|steps| - 1], topic)
      + if last.Subscribe? && last.topic == topic then [last.handler] else []
  }

  /** The calls made by one publication, in order. */
  function CallsOf(log: seq<(nat, Call)>, i: nat): seq<Call> {
    if log == [] then []
    else CallsOf(log[..|log| - 1], i) + if log[|log| - 1].0 == i then [log[|log| - 1].1] else []
  }

  lemma {:induction false} HistoryIsSuffix(steps: seq<Step>, limit: int)
    requires limit >= 1
    ensures Run(steps, limit).history == PySuffix(Published(steps), limit)
  {
    hide Kept, HandlersOf, PySuffix;
    if steps == [] {
      NothingKept<Event>(limit);
    } else {
      var init, last := steps[..|steps| - 1], steps[|steps| - 1];
      HistoryIsSuffix(init, limit);
      if last.Lock? {
        KeptStep(Published(init), [last.event], limit);
      } else {
        assert Published(steps) == Published(init);
      }
    }
  }

  lemma NothingKept<T>(limit: int)
    ensures PySuffix<T>([], limit) == []
  {
  }

  /** The history is the newest part of the publish order, whatever else is going on. */
  lemma HistoryIsNewestPublished(steps: seq<Step>, limit: int)
    requires limit >= 1
    ensures Run(steps, limit).history == PySuffix(Published(steps), limit)
    ensures NewestOf(Run(steps, limit).history, Published(steps), limit)
  {
    hide Run, Published, PySuffix;
    HistoryIsSuffix(steps, limit);
    SuffixIsNewest(Published(steps), limit);
  }

  /** Which calls a publication makes and which of them fail. */
  lemma {:induction false} CallsExact(handlers: seq<Handler>, event: Event, raises: (Handler, Event) -> bool, c: Call)
    ensures |CallsFor(handlers, event)| == |handlers|
    ensures forall k :: 0 <= k < |handlers| ==>
              CallsFor(handlers, event)[k].handler == handlers[k] && CallsFor(handlers, event)[k].event == event
    ensures Failing([], raises) == []
    ensures forall calls :: Failing(calls + [c], raises) ==
                            Failing(calls, raises) + if raises(c.handler, c.event) then [c] else []
  {
    forall calls: seq<Call>
      ensures Failing(calls + [c], raises) == Failing(calls, raises) + if raises(c.handler, c.event) then [c] else []
    {
      assert (calls + [c])[..|calls|] == calls;
    }
  }

  // ------------------------------------------------------------ recent events

  predicate OnTopic(event: Event, topic: Option<string>) {
    topic.None? || event.topic == topic.value
  }

  /** `idx` are the positions of the history on the topic, in order. */
  ghost predicate PositionsOf(idx: seq<nat>, history: seq<Event>, topic: Option<string>) {
    AscendingBelow(idx, |history|) && forall i :: 0 <= i < |history| ==> (i in idx <==> OnTopic(history[i], topic))
  }

  ghost predicate Picked(events: seq<Event>, history: seq<Event>, idx: seq<nat>)
    requires AscendingBelow(idx, |history|)
  {
    |events| == |idx| && forall j :: 0 <= j < |idx| ==> events[j] == history[idx[j]]
  }

  lemma PositionsLonger(idx: seq<nat>, history: seq<Event>, topic: Option<string>, e: Event)
    requires PositionsOf(idx, history, topic)
    ensures PositionsOf(if OnTopic(e, topic) then idx + [|history|] else idx, history + [e], topic)
  {
    hide OnTopic;
    var all := if OnTopic(e, topic) then idx + [|history|] else idx;
    forall i | 0 <= i < |history| + 1 ensures i in all <==> OnTopic((history + [e])[i], topic) {
      if i < |history| {
        assert i in all <==> i in idx;
      } else {
        assert i !in idx;
      }
    }
  }

  lemma PickedLonger(events: seq<Event>, history: seq<Event>, idx: seq<nat>, e: Event)
    requires AscendingBelow(idx, |history|) && Picked(events, history, idx)
    ensures AscendingBelow(idx, |history| + 1) && Picked(events, history + [e], idx)
    ensures AscendingBelow(idx + [|history|], |history| + 1) && Picked(events + [e], history + [e], idx + [|history|])
  {
  }

  lemma MatchingStep(history: seq<Event>, topic: Option<string>, e: Event)
    ensures Matching(history + [e], topic) == Matching(history, topic) + if OnTopic(e, topic) then [e] else []
    ensures Matching([], topic) == []
  {
    assert (history + [e])[..|history|] == history;
  }

  lemma {:induction false} MatchingPositions(history: seq<Event>, topic: Option<string>) returns (idx: seq<nat>)
    ensures PositionsOf(idx, history, topic) && Picked(Matching(history, topic), history, idx)
  {
    idx := [];
    MatchingStep([], topic, Event("", "", ""));
    if history != [] {
      var init, last := history[..|history| - 1], history[|history| - 1];
      assert history == init + [last];
      hide Matching, OnTopic, Picked;
      idx := MatchingPositions(init, topic);
      MatchingStep(init, topic, last);
      PositionsLonger(idx, init, topic, last);
      PickedLonger(Matching(init, topic), init, idx, last);
      if OnTopic(last, topic) {
        idx := idx + [|init|];
      }
    }
  }

  /** `recent`: the last `m` events of the history on the topic, in their order. The positions of
      those left out all come before. */
  lemma RecentExact(history: seq<Event>, topic: Option<string>, m: int) returns (all: seq<nat>, idx: seq<nat>)
    requires m >= 1
    ensures PositionsOf(all, history, topic)
    ensures NewestOf(idx, all, m) && AscendingBelow(idx, |history|)
    ensures Picked(PySuffix(Matching(history, topic), m), history, idx)
  {
    all := MatchingPositions(history, topic);
    idx := PySuffix(all, m);
    SuffixIsNewest(all, m);
    SuffixIsNewest(Matching(history, topic), m);
  }

  lemma {:induction false} SubscribersAreRegistered(steps: seq<Step>, limit: int, topic: string)
    ensures HandlersOf(Run(steps, limit).subscribers, topic) == Registered(steps, topic)
  {
    if steps != [] {
      SubscribersAreRegistered(steps[..|steps| - 1], limit, topic);
    }
  }

  /** Every publication has called exactly the first `done` handlers of its copy, once each. */
  predicate LogMatches(b: Bus) {
    && (forall k :: 0 <= k < |b.log| ==> b.log[k].0 < |b.publications|)
    && (forall i :: 0 <= i < |b.publications| ==>
          && b.publications[i].done <= |b.publications[i].handlers|
          && CallsOf(b.log, i) ==
             CallsFor(b.publications[i].handlers[..b.publications[i].done], b.publications[i].event))
  }

  lemma {:induction false} NoCalls(log: seq<(nat, Call)>, i: nat)
    requires forall k :: 0 <= k < |log| ==> log[k].0 != i
    ensures CallsOf(log, i) == []
  {
    if log != [] {
      NoCalls(log[..|log| - 1], i);
    }
  }

  lemma NextKeepsLogMatching(b: Bus, step: Step, limit: int)
    requires LogMatches(b)
    ensures LogMatches(Next(b, step, limit))
  {
    var b' := Next(b, step, limit);
    match step
    case Lock(e) =>
      NoCalls(b.log, |b.publications|);
    case Subscribe(_, _) =>
    case Deliver(i) =>
      if i < |b.publications| && b.publications[i].done < |b.publications[i].handlers| {
        var p := b.publications[i];
        assert b'.log[..|b.log|] == b.log;
        assert p.handlers[..p.done + 1] == p.handlers[..p.done] + [p.handlers[p.done]];
        forall j | 0 <= j < |b'.publications|
          ensures CallsOf(b'.log, j) ==
                  CallsFor(b'.publications[j].handlers[..b'.publications[j].done], b'.publications[j].event)
        {
          assert CallsOf(b'.log, j) == CallsOf(b.log, j) + if j == i then [Call(p.handlers[p.done], p.event)] else [];
        }
      }
  }

  lemma {:induction false} RunKeepsLogMatching(steps: seq<Step>, limit: int)
    ensures LogMatches(Run(steps, limit))
  {
    if steps != [] {
      RunKeepsLogMatching(steps[..|steps| - 1], limit);
      NextKeepsLogMatching(Run(steps[..|steps| - 1], limit), steps[|steps| - 1], limit);
    }
  }

  /** Later steps never touch the event or the handler copy of a publication. */
  lemma {:induction false} PublicationIsStable(before: seq<Step>, event: Event, after: seq<Step>, limit: int)
    ensures var i := |Run(before, limit).publications|;
            var b := Run(before + [Lock(event)] + after, limit);
            && i < |b.publications|
            && b.publications[i].event == event
            && b.publications[i].handlers == HandlersOf(Run(before, limit).subscribers, event.topic)
  {
    hide Kept, HandlersOf;
    var steps := before + [Lock(event)] + after;
    if after == [] {
      assert steps[..|steps| - 1] == before;
    } else {
      assert steps[..|steps| - 1] == before + [Lock(event)] + after[..|after| - 1];
      PublicationIsStable(before, event, after[..|after| - 1], limit);
    }
  }

  /** Whatever happens before, between and after: a publish call delivers its event to the
      handlers registered at its lock step, in registration order, at most once for each
      registration, and to all of them once it has finished. */
  lemma DeliversOncePerHandler(before: seq<Step>, event: Event, after: seq<Step>, limit: int)
    ensures var i := |Run(before, limit).publications|;
            var b := Run(before + [Lock(event)] + after, limit);
            var due := CallsFor(Registered(before, event.topic), event);
            && i < |b.publications|
            && CallsOf(b.log, i) <= due
            && (b.publications[i].done == |b.publications[i].handlers| ==> CallsOf(b.log, i) == due)
  {
    hide Run, CallsOf, Registered;
    var steps := before + [Lock(event)] + after;
    PublicationIsStable(before, event, after, limit);
    RunKeepsLogMatching(steps, limit);
    SubscribersAreRegistered(before, limit, event.topic);
    var p := Run(steps, limit).publications[|Run(before, limit).publications|];
    assert CallsFor(p.handlers[..p.done], event) == CallsFor(p.handlers, event)[..p.done];
    assert p.handlers[..|p.handlers|] == p.handlers;
  }

  // ------------------------------------------------------------ an undisturbed publish

  function Deliveries(i: nat, n: nat): seq<Step> {
    seq(n, _ => Deliver(i))
  }

  /** The calls as the log records them. */
  function Logged(i: nat, calls: seq<Call>): seq<(nat, Call)> {
    seq(|calls|, k requires 0 <= k < |calls| => (i, calls[k]))
  }

  lemma RunNext(steps: seq<Step>, step: Step, limit: int)
    ensures Run(steps + [step], limit) == Next(Run(steps, limit), step, limit)
  {
    assert (steps + [step])[..|steps|] == steps;
  }

  lemma DeliverNext(b: Bus, i: nat, limit: int)
    requires i < |b.publications| && b.publications[i].done < |b.publications[i].handlers|
    ensures var p, after := b.publications[i], Next(b, Deliver(i), limit);
            && after.subscribers == b.subscribers && after.history == b.history
            && after.publications == b.publications[i := p.(done := p.done + 1)]
            && after.log == b.log + Logged(i, CallsFor(p.handlers[p.done..p.done + 1], p.event))
  {
  }

  lemma {:induction false} DeliveriesInARow(steps: seq<Step>, i: nat, n: nat, limit: int)
    requires var b := Run(steps, limit);
             i < |b.publications| && b.publications[i].done == 0 && n <= |b.publications[i].handlers|
    ensures var b, after := Run(steps, limit), Run(steps + Deliveries(i, n), limit);
            var p := b.publications[i];
            && after.subscribers == b.subscribers && after.history == b.history
            && after.publications == b.publications[i := p.(done := n)]
            && after.log == b.log + Logged(i, CallsFor(p.handlers[..n], p.event))
  {
    hide Run, Next;
    var b := Run(steps, limit);
    var p := b.publications[i];
    if n == 0 {
      assert steps + Deliveries(i, 0) == steps;
      assert b.publications[i := p.(done := 0)] == b.publications;
      assert b.log + Logged(i, CallsFor(p.handlers[..0], p.event)) == b.log;
    } else {
      var before := steps + Deliveries(i, n - 1);
      assert steps + Deliveries(i, n) == before + [Deliver(i)];
      DeliveriesInARow(steps, i, n - 1, limit);
      RunNext(before, Deliver(i), limit);
      DeliverNext(Run(before, limit), i, limit);
      LoggedStep(i, p, n - 1);
    }
  }

  lemma LoggedStep(i: nat, p: Publication, n: nat)
    requires n < |p.handlers|
    ensures Logged(i, CallsFor(p.handlers[..n], p.event)) + Logged(i, CallsFor(p.handlers[n..n + 1], p.event))
         == Logged(i, CallsFor(p.handlers[..n + 1], p.event))
  {
  }

  /** What `publish` does when nothing comes between: its lock step followed by one delivery for
      each handler has the history, the subscribers and the calls that `Publish` promises. */
  lemma PublishIsLockThenDeliveries(steps: seq<Step>, event: Event, limit: int)
    ensures var b := Run(steps, limit);
            var i, handlers := |b.publications|, HandlersOf(b.subscribers, event.topic);
            var after := Run(steps + [Lock(event)] + Deliveries(i, |handlers|), limit);
            && after.history == Kept(b.history, [event], limit)
            && after.subscribers == b.subscribers
            && after.log == b.log + Logged(i, CallsFor(handlers, event))
            && after.publications == b.publications + [Publication(event, handlers, |handlers|)]
  {
    hide Run, Kept, HandlersOf, Logged;
    var b := Run(steps, limit);
    var i, handlers := |b.publications|, HandlersOf(b.subscribers, event.topic);
    RunNext(steps, Lock(event), limit);
    DeliveriesInARow(steps + [Lock(event)], i, |handlers|, limit);
    assert handlers[..|handlers|] == handlers;
  }
}

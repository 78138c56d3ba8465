/** What a whole supervisor run leaves on the audit trail. */
module Accounting {
  import opened Mcp
  import opened Supervisor
  import opened FanOut

  datatype Kind = Check(intent: Tool) | Denial | Call(actor: Actor, tool: Tool) | Route

  function KindOf(e: AuditEvent): Kind {
    match e
    case RbacCheck(_, t, _) => Check(t)
    case ScopeDenied(_, _) => Denial
    case ToolCall(a, t, _) => Call(a, t)
    case SupervisorRoute(_, _, _, _, _) => Route
  }

  /** How many events of the kind there are. */
  function Tally(trail: seq<AuditEvent>, k: Kind): nat {
    if trail == [] then 0
    else Tally(trail[..|trail| - 1], k) + if KindOf(trail[|trail| - 1]) == k then 1 else 0
  }

  lemma {:induction false} TallyOfSum(a: seq<AuditEvent>, b: seq<AuditEvent>, k: Kind)
    ensures Tally(a + b, k) == Tally(a, k) + Tally(b, k)
  {
    hide KindOf;
    if b == [] {
      assert a + b == a;
    } else {
      var init, last := b[..|b| - 1], b[|b| - 1];
      assert (a + b)[..|a + b| - 1] == a + init;
      TallyOfSum(a, init, k);
    }
  }

  lemma TallyOfOne(e: AuditEvent, k: Kind)
    ensures Tally([e], k) == if KindOf(e) == k then 1 else 0
  {
    assert [e][..0] == [];
  }

  lemma {:induction false} TakeOut(b: seq<AuditEvent>, e: AuditEvent, k: Kind) returns (rest: seq<AuditEvent>)
    requires e in multiset(b)
    ensures multiset(rest) == multiset(b) - multiset{e}
    ensures Tally(b, k) == Tally(rest, k) + Tally([e], k)
  {
    hide KindOf, Tally;
    var i :| 0 <= i < |b| && b[i] == e;
    var before, after := b[..i], b[i + 1..];
    assert b == before + [e] + after;
    rest := before + after;
    TallyOfSum(before, after, k);
    TallyOfSum(before + [e], after, k);
    TallyOfSum(before, [e], k);
  }

  /** Rearranging a trail changes no count. */
  lemma {:induction false} TallyOfRearranged(a: seq<AuditEvent>, b: seq<AuditEvent>, k: Kind)
    requires multiset(a) == multiset(b)
    ensures Tally(a, k) == Tally(b, k)
  {
    hide KindOf;
    if a == [] {
      assert |multiset(b)| == 0;
    } else {
      var init, last := a[..|a| - 1], a[|a| - 1];
      assert a == init + [last];
      assert last in multiset(a);
      var rest := TakeOut(b, last, k);
      assert multiset(a) == multiset(init) + multiset{last};
      TallyOfRearranged(init, rest, k);
      TallyOfSum(init, [last], k);
    }
  }

  // ------------------------------------------------------------ one worker

  /** The search call the copilot logs: none when its guard refuses or the search breaks down. */
  function SearchCall(w: World, query: string): seq<AuditEvent> {
    var guard := w.guard(query);
    if !guard.allowed then []
    else
      match w.leaf(PolicySearch, QueryArgs(guard.sanitised))
      case Returned(_) => [ToolCall(CopilotAgent, PolicySearch, true)]
      case RaisedValueError(_) => [ToolCall(CopilotAgent, PolicySearch, false)]
      case RaisedOther(_) => []
  }

  /** The worker's own call was answered, with a result or a tool error. */
  predicate Answered(w: World, t: Tool, a: Args) {
    !Invoke(w, SupervisorAgent, t, a).0.ProtocolError?
  }

  /** What one worker writes. */
  lemma EventsOfWorker(w: World, t: Tool, a: Args)
    requires IsIntent(t) && Fits(t, a)
    ensures Work(w, t, a).1 ==
              (if t == CopilotQuery then SearchCall(w, a.query) else [])
              + (if Answered(w, t, a)
                 then [ToolCall(SupervisorAgent, t, Invoke(w, SupervisorAgent, t, a).0.Result?)] else [])
  {
    hide AskCopilot, SearchCall;
    if t == CopilotQuery {
      EventsOfCopilot(w, a.query);
    }
  }

  lemma EventsOfCopilot(w: World, query: string)
    ensures AskCopilot(w, query).1 == SearchCall(w, query)
  {
  }

  lemma TallyOfWorker(w: World, t: Tool, a: Args, k: Kind)
    requires IsIntent(t) && Fits(t, a)
    ensures Tally(Work(w, t, a).1, k) ==
              (if t == CopilotQuery && k == Call(CopilotAgent, PolicySearch) then |SearchCall(w, a.query)| else 0)
              + (if Answered(w, t, a) && k == Call(SupervisorAgent, t) then 1 else 0)
  {
    hide Work, Invoke, Answered, SearchCall, Tally;
    EventsOfWorker(w, t, a);
    var search := if t == CopilotQuery then SearchCall(w, a.query) else [];
    var own :=
      if Answered(w, t, a) then [ToolCall(SupervisorAgent, t, Invoke(w, SupervisorAgent, t, a).0.Result?)] else [];
    TallyOfSum(search, own, k);
    TallyOfNothing(k);
    if t == CopilotQuery {
      TallyOfSearch(w, a.query, k);
    }
    if own != [] {
      TallyOfOne(own[0], k);
    }
  }

  lemma TallyOfSearch(w: World, query: string, k: Kind)
    ensures Tally(SearchCall(w, query), k) ==
              if k == Call(CopilotAgent, PolicySearch) then |SearchCall(w, query)| else 0
  {
    hide Tally;
    TallyOfOne(ToolCall(CopilotAgent, PolicySearch, true), k);
    TallyOfOne(ToolCall(CopilotAgent, PolicySearch, false), k);
    TallyOfNothing(k);
  }

  lemma TallyOfNothing(k: Kind)
    ensures Tally([], k) == 0
  {
  }

  // ------------------------------------------------------------ all workers

  predicate Ready(ts: seq<Tool>, args: map<Tool, Args>) {
    Distinct(ts) && forall t :: t in ts ==> IsIntent(t) && t in args && Fits(t, args[t])
  }

  function TallyOfCalls(w: World, ts: seq<Tool>, args: map<Tool, Args>, k: Kind): nat
    requires Ready(ts, args)
  {
    match k
    case Call(SupervisorAgent, t) => if t in ts && Answered(w, t, args[t]) then 1 else 0
    case Call(CopilotAgent, PolicySearch) => if CopilotQuery in ts then |SearchCall(w, args[CopilotQuery].query)| else 0
    case _ => 0
  }

  lemma {:induction false} TallyOfWorkers(w: World, ts: seq<Tool>, args: map<Tool, Args>, k: Kind)
    requires Ready(ts, args)
    ensures Tally(WorkAll(w, ts, args).1, k) == TallyOfCalls(w, ts, args, k)
  {
    hide Answered, SearchCall, Work, Fits, Tally;
    if ts == [] {
      TallyOfNothing(k);
    } else {
      var init, last := ts[..|ts| - 1], ts[|ts| - 1];
      assert ts == init + [last] && last !in init;
      TallyOfWorkers(w, init, args, k);
      TallyOfWorker(w, last, args[last], k);
      TallyOfSum(WorkAll(w, init, args).1, Work(w, last, args[last]).1, k);
    }
  }

  lemma {:induction false} LengthOfWorkers(w: World, ts: seq<Tool>, args: map<Tool, Args>)
    requires Ready(ts, args)
    requires forall t :: t in ts ==> Answered(w, t, args[t])
    ensures |WorkAll(w, ts, args).1| == |ts| + TallyOfCalls(w, ts, args, Call(CopilotAgent, PolicySearch))
  {
    hide Answered, SearchCall, Work, Fits;
    if ts != [] {
      var init, last := ts[..|ts| - 1], ts[|ts| - 1];
      assert ts == init + [last] && last !in init;
      LengthOfWorkers(w, init, args);
      EventsOfWorker(w, last, args[last]);
    }
  }

  // ------------------------------------------------------------ a run

  lemma {:induction false} TallyOfChecks(ts: seq<Tool>, r: Request, k: Kind)
    requires Distinct(ts)
    ensures Tally(RbacEvents(ts, r), k) == if r.granted.Some? && k.Check? && k.intent in ts then 1 else 0
  {
    if r.granted.Some? && ts != [] {
      var init, last := ts[..|ts| - 1], ts[|ts| - 1];
      assert ts == init + [last];
      var events := RbacEvents(ts, r);
      assert events[..|events| - 1] == RbacEvents(init, r);
      TallyOfChecks(init, r, k);
      assert KindOf(events[|events| - 1]) == Check(last);
    }
  }

  /** The trail of a run that passes the guard, whatever the schedule of its workers. */
  function RunTrail(w: World, r: Request, schedule: seq<nat>): seq<AuditEvent> {
    RbacEvents(IntentsOf(r), r)
    + Interleave(Workers(w, AllowedOf(r), Plan(r)), schedule).trail
    + [RouteEvent(r)]
  }

  lemma PlanIsReady(r: Request)
    ensures Ready(AllowedOf(r), Plan(r)) && Distinct(IntentsOf(r))
  {
    hide IntentsOf, Filter, Usable, NameFor;
    RoutingIsSound(r);
    FilterSplits(IntentsOf(r), r, true);
  }

  /** For every kind of event, how often it occurs in a completed run: one check for each intent
      when roles are given, one call for each allowed intent unless its handler broke down, the
      copilot's search call, one route event, and never a scope denial. */
  lemma RunIsAccountedFor(w: World, r: Request, schedule: seq<nat>, k: Kind)
    requires var ws := Workers(w, AllowedOf(r), Plan(r)); Complete(ws, Interleave(ws, schedule))
    ensures Ready(AllowedOf(r), Plan(r))
    ensures Tally(RunTrail(w, r, schedule), k) ==
              match k
              case Check(t) => if r.granted.Some? && t in IntentsOf(r) then 1 else 0
              case Call(_, _) => TallyOfCalls(w, AllowedOf(r), Plan(r), k)
              case Route => 1
              case Denial => 0
  {
    hide Tally, IntentsOf, AllowedOf, Interleave, Workers, Work, WorkAll, RbacEvents, Answered, SearchCall, Complete;
    PlanIsReady(r);
    var fan := Interleave(Workers(w, AllowedOf(r), Plan(r)), schedule);
    ScheduleDoesNotMatter(w, AllowedOf(r), Plan(r), schedule);
    TallyOfRearranged(fan.trail, WorkAll(w, AllowedOf(r), Plan(r)).1, k);
    TallyOfWorkers(w, AllowedOf(r), Plan(r), k);
    TallyOfChecks(IntentsOf(r), r, k);
    TallyOfOne(RouteEvent(r), k);
    TallyOfSum(RbacEvents(IntentsOf(r), r), fan.trail, k);
    TallyOfSum(RbacEvents(IntentsOf(r), r) + fan.trail, [RouteEvent(r)], k);
  }

  /** No handler raises anything but ValueError: then every worker's call is answered, and the
      copilot's search call is logged exactly when its guard lets the query through. */
  lemma WellBehavedIsAnswered(w: World, t: Tool, a: Args)
    requires WellBehaved(w) && IsIntent(t) && Fits(t, a)
    ensures Answered(w, t, a)
    ensures t == CopilotQuery ==> |SearchCall(w, a.query)| == if w.guard(a.query).allowed then 1 else 0
  {
  }

  /** The number of audit events of a run, exactly. */
  lemma RunLength(w: World, r: Request, schedule: seq<nat>)
    requires WellBehaved(w) && r.granted.Some?
    requires var ws := Workers(w, AllowedOf(r), Plan(r)); Complete(ws, Interleave(ws, schedule))
    ensures |RunTrail(w, r, schedule)| ==
              |IntentsOf(r)| + |AllowedOf(r)|
              + (if CopilotQuery in AllowedOf(r) && w.guard(r.query).allowed then 1 else 0) + 1
  {
    hide IntentsOf, AllowedOf, Interleave, Workers, Work, WorkAll, Answered, SearchCall, Complete, WellBehaved, Fits;
    PlanIsReady(r);
    var ts, plan := AllowedOf(r), Plan(r);
    forall t | t in ts
      ensures Answered(w, t, plan[t])
      ensures t == CopilotQuery ==> |SearchCall(w, plan[t].query)| == if w.guard(r.query).allowed then 1 else 0
    {
      WellBehavedIsAnswered(w, t, plan[t]);
      if t == CopilotQuery {
        CopilotGetsTheQuery(r);
      }
    }
    ScheduleDoesNotMatter(w, ts, plan, schedule);
    LengthOfWorkers(w, ts, plan);
    SameLength(Interleave(Workers(w, ts, plan), schedule).trail, WorkAll(w, ts, plan).1);
  }

  /** Exactly one check per intent, one call per allowed intent, one search call when the copilot
      ran and its guard let the query through, and one route event. */
  lemma WellBehavedRun(w: World, r: Request, schedule: seq<nat>, t: Tool)
    requires WellBehaved(w) && r.granted.Some?
    requires var ws := Workers(w, AllowedOf(r), Plan(r)); Complete(ws, Interleave(ws, schedule))
    ensures var trail := RunTrail(w, r, schedule);
            && Tally(trail, Check(t)) == (if t in IntentsOf(r) then 1 else 0)
            && Tally(trail, Call(SupervisorAgent, t)) == (if t in AllowedOf(r) then 1 else 0)
            && Tally(trail, Call(CopilotAgent, PolicySearch)) ==
                 (if CopilotQuery in AllowedOf(r) && w.guard(r.query).allowed then 1 else 0)
            && Tally(trail, Route) == 1
  {
    hide Tally, IntentsOf, AllowedOf, Interleave, Workers, Answered, SearchCall, Complete, WellBehaved, Fits, RunTrail;
    PlanIsReady(r);
    RunIsAccountedFor(w, r, schedule, Check(t));
    RunIsAccountedFor(w, r, schedule, Call(SupervisorAgent, t));
    RunIsAccountedFor(w, r, schedule, Call(CopilotAgent, PolicySearch));
    RunIsAccountedFor(w, r, schedule, Route);
    if t in AllowedOf(r) {
      WellBehavedIsAnswered(w, t, Plan(r)[t]);
    }
    if CopilotQuery in AllowedOf(r) {
      CopilotGetsTheQuery(r);
      WellBehavedIsAnswered(w, CopilotQuery, Plan(r)[CopilotQuery]);
    }
  }

  lemma CopilotGetsTheQuery(r: Request)
    requires CopilotQuery in AllowedOf(r)
    ensures Plan(r)[CopilotQuery] == QueryArgs(r.query)
  {
    hide IntentsOf, Filter, Usable, NameFor;
  }

  lemma SameLength(a: seq<AuditEvent>, b: seq<AuditEvent>)
    requires multiset(a) == multiset(b)
    ensures |a| == |b|
  {
    assert |multiset(a)| == |a| && |multiset(b)| == |b|;
  }

  /** A run of the supervisor that passes the guard leaves exactly the trail of one complete
      schedule, so everything counted above holds of it. */
  lemma SuperviseIsARun(w: World, r: Request) returns (schedule: seq<nat>)
    requires w.guard(r.query).allowed
    ensures var q := r.(query := w.guard(r.query).sanitised);
            var ws := Workers(w, AllowedOf(q), Plan(q));
            Complete(ws, Interleave(ws, schedule)) && Supervise(w, r).1 == RunTrail(w, q, schedule)
  {
    hide IntentsOf, AllowedOf, Interleave, Workers, WorkAll, Complete, RbacEvents, Aggregated, Routed;
    var q := r.(query := w.guard(r.query).sanitised);
    var ws := Workers(w, AllowedOf(q), Plan(q));
    RoutingIsSound(q);
    assert Plan(q) == Routed(q).args;
    schedule := InTurn(ws, |ws|);
    SequentialIsASchedule(w, AllowedOf(q), Plan(q));
  }

  /** The number of events every run of the gateway writes. */
  lemma SuperviseLength(w: World, r: Request)
    requires WellBehaved(w) && r.granted.Some?
    ensures var guard := w.guard(r.query);
            var q := r.(query := guard.sanitised);
            |Supervise(w, r).1| ==
              if !guard.allowed then 0
              else |IntentsOf(q)| + |AllowedOf(q)|
                   + (if CopilotQuery in AllowedOf(q) && w.guard(q.query).allowed then 1 else 0) + 1
  {
    hide IntentsOf, AllowedOf, Interleave, Workers, Complete, RunTrail, WellBehaved;
    if w.guard(r.query).allowed {
      var schedule := SuperviseIsARun(w, r);
      RunLength(w, r.(query := w.guard(r.query).sanitised), schedule);
    }
  }

  // ------------------------------------------------------------ scopes

  /** A scope denial is written exactly when the caller itself is outside its scope; whatever a
      tool calls on behalf of the platform's agents is always permitted. */
  lemma {:induction false} DenialIffOutOfScope(w: World, actor: Actor, t: Tool, a: Args)
    ensures (exists e :: e in Invoke(w, actor, t, a).1 && e.ScopeDenied?) <==> !MayCall(actor, t)
  {
    hide MayCall, Handle, Shortened;
    var events := Invoke(w, actor, t, a).1;
    if !MayCall(actor, t) {
      assert events[0] == ScopeDenied(actor, t);
    } else if Fits(t, a) {
      HandlersNeverDenied(w, t, a);
      assert forall e :: e in events ==> e in Handle(w, t, a).1 || e.ToolCall?;
    } else {
      assert events == [];
    }
  }

  lemma {:induction false} HandlersNeverDenied(w: World, t: Tool, a: Args)
    requires Fits(t, a)
    ensures forall e :: e in Handle(w, t, a).1 ==> !e.ScopeDenied?
  {
    hide AskCopilot, Supervise;
    if t == SupervisorAsk {
      SupervisorNeverDenied(w, Trusted(a.request));
    } else if t == CopilotQuery {
      CopilotNeverDenied(w, a.query);
    }
  }

  lemma CopilotNeverDenied(w: World, query: string)
    ensures forall e :: e in AskCopilot(w, query).1 ==> !e.ScopeDenied?
  {
  }

  lemma {:induction false} WorkersNeverDenied(w: World, ts: seq<Tool>, args: map<Tool, Args>)
    requires Ready(ts, args)
    ensures forall e :: e in WorkAll(w, ts, args).1 ==> !e.ScopeDenied?
  {
    hide Work, Fits, Answered, Invoke;
    if ts != [] {
      WorkersNeverDenied(w, ts[..|ts| - 1], args);
      EventsOfWorker(w, ts[|ts| - 1], args[ts[|ts| - 1]]);
    }
  }

  lemma {:induction false} SupervisorNeverDenied(w: World, r: Request)
    ensures forall e :: e in Supervise(w, r).1 ==> !e.ScopeDenied?
  {
    hide IntentsOf, AllowedOf, WorkAll, Aggregated, Ready;
    if w.guard(r.query).allowed {
      var q := r.(query := w.guard(r.query).sanitised);
      PlanIsReady(q);
      WorkersNeverDenied(w, AllowedOf(q), Plan(q));
    }
  }
}

/** The supervisor: classification, access control, parallel workers over audited tool calls
    and aggregation. */
module Supervisor {
  import opened Prelude
  import Text
  import opened Mcp

  // ------------------------------------------------------------ classification

  const PATTERN_ORDER: seq<Tool> := [SanctionsCheck, ComplianceInspect, ClientProfile, NlpAnalyze]

  function NameFor(r: Request): string {
    if r.clientName != "" then r.clientName else if r.clientId != "" then r.stored else ""
  }

  /** The request carries what the worker needs. */
  predicate Usable(r: Request, t: Tool) {
    match t
    case ComplianceInspect => r.clientId != ""
    case SanctionsCheck => NameFor(r) != ""
    case ClientProfile => r.clientId != ""
    case NlpAnalyze => r.text != ""
    case _ => true
  }

  function ArgsFor(r: Request, t: Tool): Args
    requires IsIntent(t)
  {
    match t
    case ComplianceInspect => ComplianceArgs(r.clientId, r.query, r.requestId)
    case SanctionsCheck => SanctionsArgs(NameFor(r), if r.jurisdiction != "" then r.jurisdiction else "GB")
    case ClientProfile => ProfileArgs(r.clientId)
    case NlpAnalyze => NlpArgs(r.text)
    case CopilotQuery => QueryArgs(r.query)
  }

  /** `[t for t in ts if t in s]`. */
  function Restrict(ts: seq<Tool>, s: set<Tool>): (r: seq<Tool>)
    ensures forall t :: t in r <==> t in ts && t in s
  {
    if ts == [] then [] else (if ts[0] in s then [ts[0]] else []) + Restrict(ts[1..], s)
  }

  /** The matched intents that can run, in pattern order; the copilot exactly when there is none. */
  function IntentsOf(r: Request): seq<Tool> {
    var runnable := Restrict(PATTERN_ORDER, set t | t in r.matched && Usable(r, t));
    if runnable == [] then [CopilotQuery] else runnable
  }

  /** The routing notes. */
  datatype Note = Downgraded(tool: Tool) | Skipped(tool: Tool) | DefaultedToCopilot

  datatype Routing = Routing(intents: seq<Tool>, args: map<Tool, Args>, notes: seq<Note>)

  function Dropped(t: Tool): Note {
    if t == ComplianceInspect then Downgraded(t) else Skipped(t)
  }

  function NoteFor(r: Request, t: Tool): seq<Note> {
    if t in r.matched && !Usable(r, t) then [Dropped(t)] else []
  }

  function NotesOf(r: Request): seq<Note> {
    NoteFor(r, ComplianceInspect) + NoteFor(r, SanctionsCheck) + NoteFor(r, ClientProfile) + NoteFor(r, NlpAnalyze)
    + if IntentsOf(r) == [CopilotQuery] then [DefaultedToCopilot] else []
  }

  function Routed(r: Request): Routing {
    var intents := IntentsOf(r);
    Routing(intents, map t | t in intents && IsIntent(t) :: ArgsFor(r, t), NotesOf(r))
  }

  /** `list.remove(t)` on a list holding `t` at most once. */
  function Without(ts: seq<Tool>, t: Tool): seq<Tool> {
    if ts == [] then [] else if ts[0] == t then ts[1..] else [ts[0]] + Without(ts[1..], t)
  }

  lemma {:induction false} WithoutRestrict(ts: seq<Tool>, s: set<Tool>, t: Tool)
    requires Distinct(ts)
    ensures Without(Restrict(ts, s), t) == Restrict(ts, s - {t})
  {
    if ts != [] {
      var rest := Restrict(ts[1..], s);
      assert if ts[0] in s then Restrict(ts, s)[0] == ts[0] && Restrict(ts, s)[1..] == rest
             else Restrict(ts, s) == rest;
      if ts[0] == t {
        RestrictCongruent(ts[1..], s, s - {t});
        if t !in s {
          WithoutAbsent(rest, t);
        }
      } else {
        WithoutRestrict(ts[1..], s, t);
      }
    }
  }

  lemma {:induction false} WithoutAbsent(ts: seq<Tool>, t: Tool)
    requires t !in ts
    ensures Without(ts, t) == ts
  {
    if ts != [] {
      WithoutAbsent(ts[1..], t);
    }
  }

  lemma {:induction false} RestrictCongruent(ts: seq<Tool>, a: set<Tool>, b: set<Tool>)
    requires forall t :: t in ts ==> (t in a <==> t in b)
    ensures Restrict(ts, a) == Restrict(ts, b)
  {
    if ts != [] {
      RestrictCongruent(ts[1..], a, b);
    }
  }

  /** After the blocks for `done`: the unusable ones among them are gone, the usable ones have
      their arguments. */
  predicate Considered(r: Request, done: set<Tool>, intents: seq<Tool>, args: map<Tool, Args>) {
    && intents == Restrict(PATTERN_ORDER, set t | t in r.matched && (t in done ==> Usable(r, t)))
    && args.Keys == (set t | t in intents && t in done)
    && forall t :: t in args ==> IsIntent(t) && args[t] == ArgsFor(r, t)
  }

  lemma PatternsDistinct()
    ensures Distinct(PATTERN_ORDER)
  {
  }

  lemma ConsiderStep(r: Request, done: set<Tool>, t: Tool, intents: seq<Tool>, args: map<Tool, Args>)
    requires Considered(r, done, intents, args) && t in PATTERN_ORDER && t !in done && IsIntent(t)
    ensures (if t in intents && !Usable(r, t) then [Dropped(t)] else []) == NoteFor(r, t)
    ensures Considered(r, done + {t},
              if t in intents && !Usable(r, t) then Without(intents, t) else intents,
              if t in intents && Usable(r, t) then args[t := ArgsFor(r, t)] else args)
  {
    hide Usable, ArgsFor, Without, Restrict, Distinct, PATTERN_ORDER;
    PatternsDistinct();
    var open := set u | u in r.matched && (u in done ==> Usable(r, u));
    var open' := set u | u in r.matched && (u in done + {t} ==> Usable(r, u));
    if t in intents && !Usable(r, t) {
      WithoutRestrict(PATTERN_ORDER, open, t);
      assert open' == open - {t};
    } else {
      assert open' == open;
    }
  }

  /** One of the four blocks "if the intent was matched: prepare its arguments or drop it". */
  method Consider(
      r: Request, t: Tool, ghost done: set<Tool>, intents: seq<Tool>, args: map<Tool, Args>, notes: seq<Note>)
    returns (intents': seq<Tool>, args': map<Tool, Args>, notes': seq<Note>)
    requires Considered(r, done, intents, args) && t in PATTERN_ORDER && t !in done && IsIntent(t)
    ensures Considered(r, done + {t}, intents', args')
    ensures notes' == notes + NoteFor(r, t)
  {
    hide Considered, Usable, ArgsFor, NoteFor, Without, Dropped;
    ConsiderStep(r, done, t, intents, args);
    intents', args', notes' := intents, args, notes;
    if t in intents {
      if Usable(r, t) {
        args' := args'[t := ArgsFor(r, t)];
      } else {
        intents' := Without(intents', t);
        notes' := notes' + [Dropped(t)];
      }
    }
  }

  /** `_classify_intents`. */
  method ClassifyIntents(r: Request) returns (routing: Routing)
    ensures routing == Routed(r)
  {
    hide Restrict, Considered, NoteFor, IntentsOf;
    var notes: seq<Note> := [];
    var args: map<Tool, Args> := map[];
    var intents := Restrict(PATTERN_ORDER, r.matched);
    NothingConsidered(r);
    ghost var done: set<Tool> := {};
    intents, args, notes := Consider(r, ComplianceInspect, done, intents, args, notes);
    done := done + {ComplianceInspect};
    intents, args, notes := Consider(r, SanctionsCheck, done, intents, args, notes);
    done := done + {SanctionsCheck};
    intents, args, notes := Consider(r, ClientProfile, done, intents, args, notes);
    done := done + {ClientProfile};
    intents, args, notes := Consider(r, NlpAnalyze, done, intents, args, notes);
    done := done + {NlpAnalyze};
    AllConsidered(r, done, intents, args);
    if intents == [] {
      intents := intents + [CopilotQuery];
      notes := notes + [DefaultedToCopilot];
    }
    if CopilotQuery in intents {
      args := args[CopilotQuery := QueryArgs(r.query)];
    }
    return Routing(intents, args, notes);
  }

  lemma NothingConsidered(r: Request)
    ensures Considered(r, {}, Restrict(PATTERN_ORDER, r.matched), map[])
  {
    hide Restrict, Usable;
    var none: set<Tool> := {};
    assert (set t | t in r.matched && (t in none ==> Usable(r, t))) == r.matched;
    assert (set t | t in Restrict(PATTERN_ORDER, r.matched) && t in none) == none;
  }

  lemma AllConsidered(r: Request, done: set<Tool>, intents: seq<Tool>, args: map<Tool, Args>)
    requires Considered(r, done, intents, args)
    requires done == {ComplianceInspect, SanctionsCheck, ClientProfile, NlpAnalyze}
    ensures CopilotQuery !in intents
    ensures IntentsOf(r) == if intents == [] then [CopilotQuery] else intents
    ensures Routed(r).args == if intents == [] then args[CopilotQuery := QueryArgs(r.query)] else args
    ensures IntentsOf(r) == [CopilotQuery] <==> intents == []
  {
    hide Restrict, Usable, NameFor, NotesOf;
    var open := set t | t in r.matched && (t in done ==> Usable(r, t));
    RestrictCongruent(PATTERN_ORDER, open, set t | t in r.matched && Usable(r, t));
    assert forall t :: t in intents ==> t in done;
    if intents != [] {
      SameArgs(r, intents, args);
    } else {
      SameArgs(r, [CopilotQuery], args[CopilotQuery := QueryArgs(r.query)]);
    }
  }

  lemma SameArgs(r: Request, intents: seq<Tool>, args: map<Tool, Args>)
    requires forall t :: t in intents ==> IsIntent(t)
    requires forall t :: t in args <==> t in intents
    requires forall t :: t in args ==> IsIntent(t) && args[t] == ArgsFor(r, t)
    ensures args == map t | t in intents && IsIntent(t) :: ArgsFor(r, t)
  {
    hide ArgsFor;
  }

  predicate Distinct(ts: seq<Tool>) {
    forall i, j :: 0 <= i < j < |ts| ==> ts[i] != ts[j]
  }

  /** Every request is routed somewhere, no worker twice, each with its arguments ready, and the
      copilot only ever runs alone. */
  lemma RoutingIsSound(r: Request)
    ensures var p := Routed(r);
            && p.intents != [] && Distinct(p.intents)
            && (forall t :: t in p.intents ==> IsIntent(t) && t in p.args && Fits(t, p.args[t]))
            && p.args.Keys == (set t | t in p.intents)
            && (CopilotQuery in p.intents ==> p.intents == [CopilotQuery])
  {
    hide Restrict, Usable, NameFor;
    RestrictDistinct(PATTERN_ORDER, set t | t in r.matched && Usable(r, t));
    OneIsDistinct(CopilotQuery);
  }

  lemma OneIsDistinct(t: Tool)
    ensures Distinct([t])
  {
  }

  lemma {:induction false} RestrictDistinct(ts: seq<Tool>, s: set<Tool>)
    requires Distinct(ts)
    ensures Distinct(Restrict(ts, s))
  {
    if ts != [] {
      RestrictDistinct(ts[1..], s);
    }
  }

  // ------------------------------------------------------------ access control

  function Permitted(r: Request, t: Tool): bool {
    r.granted.None? || t in r.granted.value
  }

  function AllowedOf(r: Request): seq<Tool> {
    Filter(IntentsOf(r), r, true)
  }

  function DeniedOf(r: Request): seq<Tool> {
    Filter(IntentsOf(r), r, false)
  }

  function Filter(ts: seq<Tool>, r: Request, permitted: bool): (f: seq<Tool>)
    ensures forall t :: t in f <==> t in ts && Permitted(r, t) == permitted
  {
    if ts == [] then []
    else
      var last := ts[|ts| - 1];
      assert ts == ts[..|ts| - 1] + [last];
      Filter(ts[..|ts| - 1], r, permitted) + if Permitted(r, last) == permitted then [last] else []
  }

  /** One decision per intent, in order; none for anonymous callers. */
  function RbacEvents(ts: seq<Tool>, r: Request): seq<AuditEvent> {
    if r.granted.None? then []
    else seq(|ts|, i requires 0 <= i < |ts| => RbacCheck(r.userId, ts[i], ts[i] in r.granted.value))
  }

  lemma {:induction false} FilterPermitsAll(ts: seq<Tool>, r: Request)
    requires r.granted.None?
    ensures Filter(ts, r, true) == ts && Filter(ts, r, false) == []
  {
    if ts != [] {
      FilterPermitsAll(ts[..|ts| - 1], r);
      assert ts == ts[..|ts| - 1] + [ts[|ts| - 1]];
    }
  }

  lemma NoDecisions(r: Request)
    ensures Filter([], r, true) == [] && Filter([], r, false) == [] && RbacEvents([], r) == []
    ensures r.granted.None? ==> forall ts :: RbacEvents(ts, r) == []
  {
  }

  lemma {:induction false} DecisionStep(ts: seq<Tool>, t: Tool, r: Request)
    requires r.granted.Some?
    ensures Filter(ts + [t], r, true) == Filter(ts, r, true) + if t in r.granted.value then [t] else []
    ensures Filter(ts + [t], r, false) == Filter(ts, r, false) + if t in r.granted.value then [] else [t]
    ensures RbacEvents(ts + [t], r) == RbacEvents(ts, r) + [RbacCheck(r.userId, t, t in r.granted.value)]
  {
    hide RbacEvents;
    assert (ts + [t])[..|ts|] == ts;
    CheckStep(ts, t, r);
  }

  lemma CheckStep(ts: seq<Tool>, t: Tool, r: Request)
    requires r.granted.Some?
    ensures RbacEvents(ts + [t], r) == RbacEvents(ts, r) + [RbacCheck(r.userId, t, t in r.granted.value)]
  {
  }

  /** `small` is `big` with some elements left out, the others in their order. */
  predicate Subsequence(small: seq<Tool>, big: seq<Tool>) {
    if small == [] then true
    else if big == [] then false
    else if small[|small| - 1] == big[|big| - 1] then Subsequence(small[..|small| - 1], big[..|big| - 1])
    else Subsequence(small, big[..|big| - 1])
  }

  /** Allowed and denied together are as many as the intents, and repeat nothing. */
  lemma {:induction false} FilterSplits(ts: seq<Tool>, r: Request, permitted: bool)
    ensures |Filter(ts, r, true)| + |Filter(ts, r, false)| == |ts|
    ensures Distinct(ts) ==> Distinct(Filter(ts, r, permitted))
  {
    hide Permitted;
    if ts != [] {
      FilterSplits(ts[..|ts| - 1], r, permitted);
    }
  }

  /** Each of them keeps the order of the intents. */
  lemma {:induction false} FilterKeepsOrder(ts: seq<Tool>, r: Request, permitted: bool)
    ensures Subsequence(Filter(ts, r, permitted), ts)
  {
    hide Permitted, Subsequence;
    if ts == [] {
      NothingIsSubsequence(ts);
    } else {
      var init, last := ts[..|ts| - 1], ts[|ts| - 1];
      assert ts == init + [last];
      FilterKeepsOrder(init, r, permitted);
      if Permitted(r, last) == permitted {
        SubsequenceGrows(Filter(init, r, permitted), init, last);
      } else {
        SubsequenceExtends(Filter(init, r, permitted), init, last);
        assert Filter(ts, r, permitted) == Filter(init, r, permitted);
      }
    }
  }

  lemma NothingIsSubsequence(big: seq<Tool>)
    ensures Subsequence([], big)
  {
  }

  lemma SubsequenceGrows(small: seq<Tool>, big: seq<Tool>, t: Tool)
    requires Subsequence(small, big)
    ensures Subsequence(small + [t], big + [t])
  {
    assert (small + [t])[..|small|] == small && (big + [t])[..|big|] == big;
  }

  lemma {:induction false} SubsequenceExtends(small: seq<Tool>, big: seq<Tool>, t: Tool)
    requires Subsequence(small, big)
    ensures Subsequence(small, big + [t])
    decreases |big|, 1
  {
    var all := big + [t];
    assert all[..|all| - 1] == big;
    if small != [] && small[|small| - 1] == t {
      SubsequenceShrinks(small, big);
    }
  }

  lemma {:induction false} SubsequenceShrinks(small: seq<Tool>, big: seq<Tool>)
    requires small != [] && Subsequence(small, big)
    ensures Subsequence(small[..|small| - 1], big)
    decreases |big|, 0
  {
    var init := big[..|big| - 1];
    assert big == init + [big[|big| - 1]];
    if small[|small| - 1] != big[|big| - 1] {
      SubsequenceShrinks(small, init);
    }
    SubsequenceExtends(small[..|small| - 1], init, big[|big| - 1]);
  }

  // ------------------------------------------------------------ audited tool calls

  /** One `tools/call`: the response and the audit events it writes, in order. The recursion is
      bounded because every nested call is of a tool of lower rank. */
  function Invoke(w: World, actor: Actor, tool: Tool, args: Args): (Response, seq<AuditEvent>)
    decreases Rank(tool), 1
  {
    if !MayCall(actor, tool) then (ProtocolError("not permitted"), [ScopeDenied(actor, tool)])
    else if !Fits(tool, args) then (ProtocolError("missing required arguments"), [])
    else
      var (result, events) := Handle(w, tool, args);
      match result
      case Returned(o) => (Result(o), events + [ToolCall(actor, tool, true)])
      case RaisedValueError(m) => (ErrorResult(m), events + [ToolCall(actor, tool, false)])
      case RaisedOther(m) => (ProtocolError(Shortened(m)), events)
  }

  /** The body of a tool and the calls it makes. */
  function Handle(w: World, tool: Tool, args: Args): (HandlerResult, seq<AuditEvent>)
    requires Fits(tool, args)
    decreases Rank(tool), 0
  {
    match tool
    case CopilotQuery => AskCopilot(w, args.query)
    case SupervisorAsk =>
      var (answer, events) := Supervise(w, Trusted(args.request));
      (Returned(OutputOf(answer)), events)
    case _ => (w.leaf(tool, args), [])
  }

  /** Callers over MCP already passed access control, and cannot name a jurisdiction. */
  function Trusted(r: Request): Request {
    r.(granted := None, userId := "mcp-client", jurisdiction := "GB")
  }

  function Blocked(guard: Guard): Output {
    Output(None, "This request was blocked by prompt guardrails and has not been processed.",
      "", [], false, guard.flags)
  }

  /** The copilot: guard, one search call, generation. */
  function AskCopilot(w: World, query: string): (HandlerResult, seq<AuditEvent>)
    decreases 0, 2
  {
    var guard := w.guard(query);
    if !guard.allowed then
      (Returned(Blocked(guard)), [])
    else
      var (response, events) := Invoke(w, CopilotAgent, PolicySearch, QueryArgs(guard.sanitised));
      match response
      case Result(o) => (w.generate(guard.sanitised, o), events)
      case ErrorResult(m) => (RaisedValueError(m), events)
      case ProtocolError(m) => (RaisedOther(CallError(PolicySearch, m)), events)
  }

  /** `_call_tool`: errors of either kind become an error output. */
  function Work(w: World, tool: Tool, args: Args): (Output, seq<AuditEvent>)
    requires IsIntent(tool)
    decreases 1, 2
  {
    var (response, events) := Invoke(w, SupervisorAgent, tool, args);
    match response
    case Result(o) => (o, events)
    case ErrorResult(m) => (Failed(m), events)
    case ProtocolError(m) => (Failed(CallError(tool, m)), events)
  }

  /** The workers one after the other, in the order of the intents. */
  function WorkAll(w: World, allowed: seq<Tool>, args: map<Tool, Args>): (map<Tool, Output>, seq<AuditEvent>)
    requires forall t :: t in allowed ==> IsIntent(t) && t in args
    decreases 1, 3, |allowed|
  {
    if allowed == [] then (map[], [])
    else
      var t := allowed[|allowed| - 1];
      var (results, events) := WorkAll(w, allowed[..|allowed| - 1], args);
      var (output, more) := Work(w, t, args[t]);
      (results[t := output], events + more)
  }

  /** A run of the supervisor under the sequential schedule: its answer and its audit events. */
  function Supervise(w: World, r: Request): (Answer, seq<AuditEvent>)
    decreases 1, 4
  {
    var guard := w.guard(r.query);
    if !guard.allowed then
      (Refused(guard), [])
    else
      var q := r.(query := guard.sanitised);
      RoutingIsSound(q);
      var (results, events) := WorkAll(w, AllowedOf(q), Routed(q).args);
      (Aggregated(q, guard.flags, results),
       RbacEvents(IntentsOf(q), q) + events + [RouteEvent(q)])
  }

  function RouteEvent(r: Request): AuditEvent {
    SupervisorRoute(r.requestId, r.userId, AllowedOf(r), DeniedOf(r), DeniedOf(r) != [] && AllowedOf(r) == [])
  }

  // ------------------------------------------------------------ aggregation

  datatype Answer = Answer(
    answer: string,
    routedTo: seq<Tool>,
    sections: map<Tool, Output>,
    citations: seq<string>,
    outOfScope: bool,
    denied: seq<Tool>,
    allDenied: bool,
    notes: seq<Note>,
    guardrails: seq<string>)

  function Refused(guard: Guard): Answer {
    Answer("This request was blocked by prompt guardrails and has not been routed to any agent.",
      [], map[], [], false, [], false, [], guard.flags)
  }

  /** An answer as the output of a tool. */
  function OutputOf(a: Answer): Output {
    Output(None, a.answer, "", a.citations, a.outOfScope, a.guardrails)
  }

  function Summary(t: Tool, o: Output): string {
    if o.error.Some? then ToolName(t) + ": failed (" + o.error.value + ")"
    else if t == CopilotQuery then o.answer
    else o.summary
  }

  /** The sections of the workers that delivered. */
  function SectionsOf(allowed: seq<Tool>, results: map<Tool, Output>): map<Tool, Output> {
    map t | t in allowed && t in results :: results[t]
  }

  function SummariesOf(allowed: seq<Tool>, results: map<Tool, Output>): seq<string> {
    if allowed == [] then []
    else
      var t := allowed[|allowed| - 1];
      SummariesOf(allowed[..|allowed| - 1], results) + if t in results then [Summary(t, results[t])] else []
  }

  function JoinNames(ts: seq<Tool>): string {
    if ts == [] then "" else if |ts| == 1 then ToolName(ts[0]) else ToolName(ts[0]) + ", " + JoinNames(ts[1..])
  }

  /** Appends the flags that are not on the list yet. */
  function Merged(flags: seq<string>, more: seq<string>): seq<string> {
    if more == [] then flags
    else
      var before, last := Merged(flags, more[..|more| - 1]), more[|more| - 1];
      if last in before then before else before + [last]
  }

  /** The merged flags start with the first list, hold exactly the flags of both, and repeat
      nothing the first list did not repeat. */
  lemma {:induction false} MergedIsUnion(flags: seq<string>, more: seq<string>)
    ensures flags <= Merged(flags, more)
    ensures forall f :: f in Merged(flags, more) <==> f in flags || f in more
    ensures (forall i, j :: 0 <= i < j < |flags| ==> flags[i] != flags[j]) ==>
              forall i, j :: 0 <= i < j < |Merged(flags, more)| ==> Merged(flags, more)[i] != Merged(flags, more)[j]
  {
    if more != [] {
      MergedIsUnion(flags, more[..|more| - 1]);
      assert more == more[..|more| - 1] + [more[|more| - 1]];
    }
  }

  const NOTHING: Output := Output(None, "", "", [], false, [])

  function Aggregated(r: Request, flags: seq<string>, results: map<Tool, Output>): Answer {
    var allowed, denied := AllowedOf(r), DeniedOf(r);
    var sections := SectionsOf(allowed, results);
    var copilot := if CopilotQuery in sections then sections[CopilotQuery] else NOTHING;
    var joined := Text.Join(SummariesOf(allowed, results));
    var answer := if copilot.answer != "" then copilot.answer else joined;
    Answer(
      if answer != "" then answer
      else "No agent was able to process this request."
           + (if denied != [] then " Access denied for: " + JoinNames(denied) + "." else ""),
      allowed, sections, copilot.citations, copilot.outOfScope, denied,
      denied != [] && allowed == [], NotesOf(r), Merged(flags, copilot.guardrails))
  }

  /** One summary line for each worker that delivered, in the order of the intents. */
  lemma {:induction false} SummariesInOrder(allowed: seq<Tool>, results: map<Tool, Output>)
    requires forall t :: t in allowed ==> t in results
    ensures |SummariesOf(allowed, results)| == |allowed|
    ensures forall i :: 0 <= i < |allowed| ==>
              SummariesOf(allowed, results)[i] == Summary(allowed[i], results[allowed[i]])
  {
    hide Summary;
    if allowed != [] {
      SummariesInOrder(allowed[..|allowed| - 1], results);
    }
  }

  /** When the copilot ran it ran alone, so its answer is the whole answer and nothing was denied. */
  lemma CopilotAnswersAlone(r: Request, flags: seq<string>, results: map<Tool, Output>)
    requires CopilotQuery in AllowedOf(r) && CopilotQuery in results && results[CopilotQuery].answer != ""
    ensures var a := Aggregated(r, flags, results);
            && a.answer == results[CopilotQuery].answer && a.routedTo == [CopilotQuery]
            && a.citations == results[CopilotQuery].citations && a.denied == [] && !a.allDenied
  {
    hide Usable, NameFor, Merged, SummariesOf, Text.Join, JoinNames, NotesOf;
    RoutingIsSound(r);
    FilterSplits(IntentsOf(r), r, true);
  }
}

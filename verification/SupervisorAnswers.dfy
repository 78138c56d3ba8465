/** What the supervisor answers, said from the request and the tools alone: which workers run and
    with what, what each section holds, and what the answer is made of. */
module SupervisorAnswers {
  import opened Prelude
  import opened Mcp
  import opened Supervisor
  import opened FanOut

  // ------------------------------------------------------------ which workers run

  /** The name to screen: the one given, or else the one the store has for the client. */
  predicate NameToScreen(r: Request, name: string) {
    if r.clientName != "" then name == r.clientName
    else if r.clientId != "" then name == r.stored
    else name == ""
  }

  /** A specialised worker that the query asks for and the request has the data for. */
  predicate CanRun(r: Request, t: Tool) {
    t in r.matched
    && match t
       case ComplianceInspect => r.clientId != ""
       case ClientProfile => r.clientId != ""
       case NlpAnalyze => r.text != ""
       case SanctionsCheck => r.clientName != "" || (r.clientId != "" && r.stored != "")
       case _ => false
  }

  function PlaceOf(t: Tool): nat {
    match t
    case SanctionsCheck => 0
    case ComplianceInspect => 1
    case ClientProfile => 2
    case _ => 3
  }

  predicate GivenArguments(r: Request, t: Tool, a: Args) {
    match t
    case ComplianceInspect => a == ComplianceArgs(r.clientId, r.query, r.requestId)
    case ClientProfile => a == ProfileArgs(r.clientId)
    case NlpAnalyze => a == NlpArgs(r.text)
    case SanctionsCheck =>
      && a.SanctionsArgs? && NameToScreen(r, a.name)
      && a.country == (if r.jurisdiction == "" then "GB" else r.jurisdiction)
    case CopilotQuery => a == QueryArgs(r.query)
    case _ => false
  }

  lemma CanRunIff(r: Request, t: Tool)
    ensures t in PATTERN_ORDER && t in r.matched && Usable(r, t) <==> CanRun(r, t)
  {
  }

  lemma ArgumentsGiven(r: Request, t: Tool)
    requires IsIntent(t)
    ensures GivenArguments(r, t, ArgsFor(r, t))
  {
  }

  predicate Ascends(ts: seq<Tool>) {
    forall i, j :: 0 <= i < j < |ts| ==> PlaceOf(ts[i]) < PlaceOf(ts[j])
  }

  lemma {:induction false} RestrictAscends(ts: seq<Tool>, s: set<Tool>)
    requires Ascends(ts)
    ensures Ascends(Restrict(ts, s))
  {
    hide PlaceOf;
    if ts != [] {
      var rest := Restrict(ts[1..], s);
      RestrictAscends(ts[1..], s);
      if ts[0] in s {
        forall j | 0 <= j < |rest| ensures PlaceOf(ts[0]) < PlaceOf(rest[j]) {
          assert rest[j] in ts[1..];
        }
      }
    }
  }

  lemma PatternsAscend()
    ensures Ascends(PATTERN_ORDER)
  {
  }

  /** Exactly the specialised workers that can run are routed to, in the order of the patterns,
      and the copilot if there is none. */
  lemma {:induction false} IntentsExact(r: Request)
    ensures forall t :: t in IntentsOf(r) <==>
              if t == CopilotQuery then forall u :: !CanRun(r, u) else CanRun(r, t)
    ensures Ascends(IntentsOf(r))
  {
    hide Restrict, PATTERN_ORDER, CanRun, Usable;
    var runnable := Restrict(PATTERN_ORDER, set t | t in r.matched && Usable(r, t));
    forall t ensures t in runnable <==> CanRun(r, t) {
      CanRunIff(r, t);
    }
    PatternsAscend();
    RestrictAscends(PATTERN_ORDER, set t | t in r.matched && Usable(r, t));
    NoCopilotWorker(r);
    assert runnable != [] ==> runnable[0] in runnable;
  }

  /** Each of them gets the arguments it needs from the request. */
  lemma {:induction false} RoutingExact(r: Request)
    ensures forall t :: t in IntentsOf(r) ==> t in Routed(r).args && GivenArguments(r, t, Routed(r).args[t])
  {
    hide IntentsOf, GivenArguments, ArgsFor, NotesOf;
    RoutingIsSound(r);
    forall t | t in IntentsOf(r) ensures t in Routed(r).args && GivenArguments(r, t, Routed(r).args[t]) {
      ArgumentsGiven(r, t);
    }
  }

  lemma NoCopilotWorker(r: Request)
    ensures !CanRun(r, CopilotQuery)
  {
  }

  /** Each matched worker without its data is noted, compliance as downgraded; and so is the
      fallback to the copilot. */
  lemma {:induction false} NotesExact(r: Request, n: Note)
    ensures n in NotesOf(r) <==>
              match n
              case Downgraded(t) => t == ComplianceInspect && t in r.matched && !CanRun(r, t)
              case Skipped(t) => t in {SanctionsCheck, ClientProfile, NlpAnalyze} && t in r.matched && !CanRun(r, t)
              case DefaultedToCopilot => forall u :: !CanRun(r, u)
  {
    IntentsExact(r);
    RoutingIsSound(r);
    hide IntentsOf, CanRun, NoteFor;
    NoteIff(r, ComplianceInspect, n);
    NoteIff(r, SanctionsCheck, n);
    NoteIff(r, ClientProfile, n);
    NoteIff(r, NlpAnalyze, n);
    assert IntentsOf(r) == [CopilotQuery] <==> CopilotQuery in IntentsOf(r);
  }

  lemma NoteIff(r: Request, t: Tool, n: Note)
    requires t in {SanctionsCheck, ComplianceInspect, ClientProfile, NlpAnalyze}
    ensures n in NoteFor(r, t) <==>
            t in r.matched && !CanRun(r, t) && n == if t == ComplianceInspect then Downgraded(t) else Skipped(t)
  {
  }

  // ------------------------------------------------------------ who may use them

  predicate Granted(r: Request, t: Tool) {
    r.granted.Some? ==> t in r.granted.value
  }

  /** The intents the roles grant run, the others are reported denied; one audit event says so
      for each, unless nobody is signed in. */
  lemma {:induction false} AccessExact(r: Request)
    ensures forall t :: t in AllowedOf(r) <==> t in IntentsOf(r) && Granted(r, t)
    ensures forall t :: t in DeniedOf(r) <==> t in IntentsOf(r) && !Granted(r, t)
    ensures var checks := RbacEvents(IntentsOf(r), r);
            && |checks| == (if r.granted.Some? then |IntentsOf(r)| else 0)
            && forall i :: 0 <= i < |checks| ==>
                 checks[i] == RbacCheck(r.userId, IntentsOf(r)[i], Granted(r, IntentsOf(r)[i]))
  {
    hide IntentsOf;
  }

  // ------------------------------------------------------------ what a section holds

  /** The call failed: nothing but the message, which for exceptions other than ValueError is
      the shortened text behind the name of the tool. */
  predicate FailedWith(o: Output, tool: Tool, result: HandlerResult)
    requires !result.Returned?
  {
    && o.answer == "" && o.summary == "" && o.citations == [] && o.guardrails == [] && !o.outOfScope
    && match result
       case RaisedValueError(m) => o.error == Some(m)
       case RaisedOther(m) =>
         o.error == Some("MCP error calling " + ToolName(tool) + ": " + if |m| <= 300 then m else m[..300])
  }

  /** What the copilot comes to: the refusal of its guard, or what generation makes of the search
      result, or the failure of either. */
  predicate CopilotDelivers(w: World, query: string, o: Output) {
    var guard := w.guard(query);
    if !guard.allowed then
      && o.error.None? && o.summary == "" && o.citations == [] && !o.outOfScope && o.guardrails == guard.flags
      && o.answer == "This request was blocked by prompt guardrails and has not been processed."
    else
      match w.leaf(PolicySearch, QueryArgs(guard.sanitised))
      case Returned(hits) =>
        var made := w.generate(guard.sanitised, hits);
        if made.Returned? then o == made.output else FailedWith(o, CopilotQuery, made)
      case RaisedValueError(m) => FailedWith(o, CopilotQuery, RaisedValueError(m))
      case RaisedOther(m) =>
        var reason := if |m| <= 300 then m else m[..300];
        FailedWith(o, CopilotQuery, RaisedOther("MCP error calling policy_search: " + reason))
  }

  /** What the worker of `t` puts into its section. */
  predicate Delivers(w: World, t: Tool, a: Args, o: Output) {
    if t == CopilotQuery then a.QueryArgs? && CopilotDelivers(w, a.query, o)
    else
      var result := w.leaf(t, a);
      if result.Returned? then o == result.output else FailedWith(o, t, result)
  }

  lemma FailureIs(tool: Tool, result: HandlerResult)
    requires !result.Returned?
    ensures FailedWith(FailureOf(tool, result), tool, result)
  {
    hide ToolName;
    var m := match result case RaisedValueError(m) => m case RaisedOther(m) => m;
    assert Shortened(m) == if |m| <= 300 then m else m[..300];
  }

  /** A tool's failure as the supervisor reports it. */
  function FailureOf(tool: Tool, result: HandlerResult): Output
    requires !result.Returned?
  {
    match result
    case RaisedValueError(m) => Failed(m)
    case RaisedOther(m) => Failed(CallError(tool, Shortened(m)))
  }

  lemma WorkIs(w: World, t: Tool, a: Args)
    requires IsIntent(t) && Fits(t, a)
    ensures var result := Handle(w, t, a).0;
            Work(w, t, a).0 == if result.Returned? then result.output else FailureOf(t, result)
  {
    hide Handle, CallError, Shortened;
  }

  lemma SearchIs(w: World, query: string)
    ensures var guard := w.guard(query);
            AskCopilot(w, query).0 ==
              if !guard.allowed then Returned(Blocked(guard))
              else match w.leaf(PolicySearch, QueryArgs(guard.sanitised))
                   case Returned(hits) => w.generate(guard.sanitised, hits)
                   case RaisedValueError(m) => RaisedValueError(m)
                   case RaisedOther(m) => RaisedOther(CallError(PolicySearch, Shortened(m)))
  {
    hide CallError, Shortened, Blocked;
  }

  lemma SearchErrorIs(m: string)
    ensures CallError(PolicySearch, Shortened(m)) ==
              "MCP error calling policy_search: " + if |m| <= 300 then m else m[..300]
  {
    assert "MCP error calling " + "policy_search" + ": " == "MCP error calling policy_search: ";
  }

  lemma CopilotAnswers(w: World, query: string)
    ensures var result := AskCopilot(w, query).0;
            CopilotDelivers(w, query, if result.Returned? then result.output else FailureOf(CopilotQuery, result))
  {
    hide AskCopilot, CallError, Shortened, FailedWith, FailureOf;
    SearchIs(w, query);
    var guard, result := w.guard(query), AskCopilot(w, query).0;
    if guard.allowed {
      var found := w.leaf(PolicySearch, QueryArgs(guard.sanitised));
      if found.RaisedOther? {
        SearchErrorIs(found.message);
      }
    }
    if !result.Returned? {
      FailureIs(CopilotQuery, result);
    }
  }

  lemma WorkDelivers(w: World, t: Tool, a: Args)
    requires IsIntent(t) && Fits(t, a)
    ensures Delivers(w, t, a, Work(w, t, a).0)
  {
    hide Work, AskCopilot, CopilotDelivers, FailureOf, FailedWith;
    WorkIs(w, t, a);
    if t == CopilotQuery {
      CopilotAnswers(w, a.query);
    } else {
      var result := w.leaf(t, a);
      if !result.Returned? {
        FailureIs(t, result);
      }
    }
  }

  /** One section for each allowed worker, holding what that worker delivered on the arguments
      of the request: its output, or its failure. */
  ghost predicate SectionsDelivered(w: World, r: Request, sections: map<Tool, Output>) {
    && sections.Keys == (set t | t in AllowedOf(r))
    && forall t :: t in sections ==> exists a :: GivenArguments(r, t, a) && Delivers(w, t, a, sections[t])
  }

  lemma {:induction false} ResultsAreDelivered(w: World, r: Request)
    ensures var results := WorkAll(w, AllowedOf(r), Plan(r)).0;
            SectionsDelivered(w, r, results) && SectionsOf(AllowedOf(r), results) == results
  {
    hide IntentsOf, Filter, WorkAll, Work, GivenArguments, Delivers, Fits;
    var ts, plan := AllowedOf(r), Plan(r);
    RoutingExact(r);
    RoutingIsSound(r);
    SequentialResults(w, ts, plan);
    var results := WorkAll(w, ts, plan).0;
    forall t | t in results ensures GivenArguments(r, t, plan[t]) && Delivers(w, t, plan[t], results[t]) {
      WorkDelivers(w, t, plan[t]);
    }
  }

  // ------------------------------------------------------------ the answer

  /** The line a worker contributes: why it failed, or its summary. */
  predicate LineOf(t: Tool, o: Output, line: string) {
    match o.error
    case Some(m) => line == ToolName(t) + ": failed (" + m + ")"
    case None => line == if t == CopilotQuery then o.answer else o.summary
  }

  predicate LinesOf(ts: seq<Tool>, sections: map<Tool, Output>, lines: seq<string>) {
    |lines| == |ts| && forall i :: 0 <= i < |ts| ==> ts[i] in sections && LineOf(ts[i], sections[ts[i]], lines[i])
  }

  /** `", ".join` of the names. */
  lemma NamesLaws(t: Tool, ts: seq<Tool>)
    ensures JoinNames([]) == "" && JoinNames([t]) == ToolName(t)
    ensures ts != [] ==> JoinNames([t] + ts) == ToolName(t) + ", " + JoinNames(ts)
  {
    hide ToolName;
    assert ([t] + ts)[1..] == ts;
  }

  /** The text of an answer: the lines of the workers in the order of the intents, or, if they
      say nothing, that nobody could help and who was denied. */
  predicate TextOf(r: Request, lines: seq<string>, text: string) {
    if Text.Join(lines) != "" then text == Text.Join(lines)
    else if DeniedOf(r) == [] then text == "No agent was able to process this request."
    else text == "No agent was able to process this request." + " Access denied for: " + JoinNames(DeniedOf(r)) + "."
  }

  lemma {:induction false} AggregatedExact(r: Request, flags: seq<string>, results: map<Tool, Output>)
    returns (lines: seq<string>)
    requires forall t :: t in AllowedOf(r) <==> t in results
    ensures var a := Aggregated(r, flags, results);
            && a.sections == results && a.routedTo == AllowedOf(r) && a.denied == DeniedOf(r)
            && LinesOf(AllowedOf(r), results, lines)
            && (if CopilotQuery in results && results[CopilotQuery].answer != ""
                then a.answer == results[CopilotQuery].answer else TextOf(r, lines, a.answer))
            && (a.allDenied <==> AllowedOf(r) == [])
            && a.notes == NotesOf(r)
            && (CopilotQuery in results ==>
                  && a.citations == results[CopilotQuery].citations
                  && a.outOfScope == results[CopilotQuery].outOfScope
                  && forall f :: f in a.guardrails <==> f in flags || f in results[CopilotQuery].guardrails)
            && (CopilotQuery !in results ==> a.citations == [] && !a.outOfScope && a.guardrails == flags)
  {
    hide AllowedOf, DeniedOf, NotesOf, Text.Join, JoinNames, Summary, Merged, SummariesOf, LineOf;
    lines := SummariesOf(AllowedOf(r), results);
    SummariesInOrder(AllowedOf(r), results);
    forall i | 0 <= i < |lines| ensures LineOf(AllowedOf(r)[i], results[AllowedOf(r)[i]], lines[i]) {
      SummaryIsLine(AllowedOf(r)[i], results[AllowedOf(r)[i]]);
    }
    NobodyAllowed(r);
    assert SectionsOf(AllowedOf(r), results) == results;
    if CopilotQuery in results {
      MergedIsUnion(flags, results[CopilotQuery].guardrails);
    } else {
      MergedNothing(flags);
    }
  }

  lemma SummaryIsLine(t: Tool, o: Output)
    ensures LineOf(t, o, Summary(t, o))
  {
    hide ToolName;
  }

  lemma MergedNothing(flags: seq<string>)
    ensures Merged(flags, []) == flags
  {
  }

  lemma NobodyAllowed(r: Request)
    ensures AllowedOf(r) == [] ==> DeniedOf(r) != []
  {
    hide IntentsOf, Filter;
    RoutingIsSound(r);
    FilterSplits(IntentsOf(r), r, true);
  }

  /** What the answer to a request is: its sections, its text, its flags and whom it denied. */
  ghost predicate AnswerExact(w: World, r: Request, flags: seq<string>, a: Answer, lines: seq<string>) {
    && SectionsDelivered(w, r, a.sections)
    && a.routedTo == AllowedOf(r) && a.denied == DeniedOf(r) && a.notes == NotesOf(r)
    && (a.allDenied <==> AllowedOf(r) == [])
    && LinesOf(AllowedOf(r), a.sections, lines)
    && (if CopilotQuery in a.sections && a.sections[CopilotQuery].answer != ""
        then a.answer == a.sections[CopilotQuery].answer else TextOf(r, lines, a.answer))
    && (CopilotQuery in a.sections ==>
          && a.citations == a.sections[CopilotQuery].citations
          && a.outOfScope == a.sections[CopilotQuery].outOfScope
          && forall f :: f in a.guardrails <==> f in flags || f in a.sections[CopilotQuery].guardrails)
    && (CopilotQuery !in a.sections ==> a.citations == [] && !a.outOfScope && a.guardrails == flags)
  }

  lemma {:induction false} SequentialAnswerExact(w: World, r: Request, flags: seq<string>) returns (lines: seq<string>)
    ensures AnswerExact(w, r, flags, Aggregated(r, flags, WorkAll(w, AllowedOf(r), Plan(r)).0), lines)
  {
    hide Aggregated, WorkAll, AllowedOf, DeniedOf, LinesOf, TextOf, NotesOf, SectionsDelivered;
    var results := WorkAll(w, AllowedOf(r), Plan(r)).0;
    ResultsAreDelivered(w, r);
    DeliveredKeys(w, r, results);
    lines := AggregatedExact(r, flags, results);
  }

  lemma DeliveredKeys(w: World, r: Request, sections: map<Tool, Output>)
    requires SectionsDelivered(w, r, sections)
    ensures forall t :: t in AllowedOf(r) <==> t in sections
  {
    hide AllowedOf;
  }

  /** A run of the gateway: a refused query is answered with the refusal and reaches nobody; any
      other is answered from what its workers delivered. */
  lemma {:induction false} SuperviseExact(w: World, r: Request) returns (lines: seq<string>)
    ensures var guard := w.guard(r.query);
            var a := Supervise(w, r).0;
            if guard.allowed then AnswerExact(w, r.(query := guard.sanitised), guard.flags, a, lines)
            else
              && a.answer == "This request was blocked by prompt guardrails and has not been routed to any agent."
              && a.routedTo == [] && a.sections == map[] && a.citations == [] && a.guardrails == guard.flags
  {
    hide Aggregated, WorkAll, AllowedOf, Routed, AnswerExact, RbacEvents, RouteEvent, IntentsOf;
    lines := [];
    var guard := w.guard(r.query);
    if guard.allowed {
      var q := r.(query := guard.sanitised);
      lines := SequentialAnswerExact(w, q, guard.flags);
      RoutingIsSound(q);
      assert Plan(q) == Routed(q).args;
    }
  }

  /** The same whatever the schedule of the workers. */
  lemma {:induction false} AnyScheduleExact(w: World, r: Request, flags: seq<string>, schedule: seq<nat>)
    returns (lines: seq<string>)
    requires var ws := Workers(w, AllowedOf(r), Plan(r)); Complete(ws, Interleave(ws, schedule))
    ensures var s := Interleave(Workers(w, AllowedOf(r), Plan(r)), schedule);
            AnswerExact(w, r, flags, Aggregated(r, flags, s.results), lines)
  {
    hide Aggregated, WorkAll, AllowedOf, AnswerExact, Interleave, Workers, Complete;
    AnswerDoesNotDependOnSchedule(w, r, flags, schedule);
    lines := SequentialAnswerExact(w, r, flags);
  }

  /** The last event of a run that passes the guard names who asked, who ran and who was denied. */
  lemma RouteEventExact(w: World, r: Request)
    requires w.guard(r.query).allowed
    ensures var q := r.(query := w.guard(r.query).sanitised);
            var trail := Supervise(w, r).1;
            trail != [] && trail[|trail| - 1] ==
              SupervisorRoute(r.requestId, r.userId, AllowedOf(q), DeniedOf(q), AllowedOf(q) == [])
  {
    hide Aggregated, WorkAll, AllowedOf, DeniedOf, Routed, RbacEvents, IntentsOf;
    NobodyAllowed(r.(query := w.guard(r.query).sanitised));
  }

  /** A supervisor called over MCP runs without an access check, for the default jurisdiction, and
      returns its answer as the output. */
  lemma NestedRunExact(w: World, r: Request)
    ensures var result := Handle(w, SupervisorAsk, SupervisorArgs(r)).0;
            var q := r.(granted := None, userId := "mcp-client", jurisdiction := "GB");
            var a := Supervise(w, q).0;
            result == Returned(Output(None, a.answer, "", a.citations, a.outOfScope, a.guardrails))
  {
    hide Supervise;
  }

  // ------------------------------------------------------------ scopes

  /** The names under which tools are called and reported; no two share one. */
  lemma ToolNamesExact(t: Tool, u: Tool)
    ensures ToolName(SanctionsCheck) == "sanctions_check" && ToolName(ComplianceInspect) == "compliance_inspect"
    ensures ToolName(ClientProfile) == "client_profile" && ToolName(NlpAnalyze) == "nlp_analyze"
    ensures ToolName(CopilotQuery) == "copilot_query" && ToolName(PolicySearch) == "policy_search"
    ensures ToolName(SupervisorAsk) == "supervisor_ask"
    ensures ToolName(t) == ToolName(u) ==> t == u
  {
    var n, m := ToolName(t), ToolName(u);
    assert n == m ==> |n| == |m| && n[0] == m[0] && n[2] == m[2];
  }

  /** Which tools the platform's own agents may call. */
  lemma ScopesExact(t: Tool, name: string)
    ensures MayCall(SupervisorAgent, t) <==> t != SupervisorAsk
    ensures MayCall(CopilotAgent, t) <==> t == PolicySearch
    ensures MayCall(ProfilingAgent, t) <==> t == PolicySearch
    ensures MayCall(ComplianceAgent, t) <==> t == PolicySearch || t == SanctionsCheck
    ensures MayCall(OnboardingAgent, t) <==> t == PolicySearch || t == SanctionsCheck
    ensures MayCall(External(name), t)
  {
  }
}

/** The running gateway: the calls above carried out over one audit trail that every step
    appends to. */
module Gateway {
  import opened Mcp
  import opened Supervisor

  class SupervisorGateway {
    var trail: seq<AuditEvent>

    constructor ()
      ensures trail == []
    {
      trail := [];
    }

    /** Writes one event. */
    method Record(e: AuditEvent)
      modifies this
      ensures trail == old(trail) + [e]
    {
      trail := trail + [e];
    }

    /** `_handle_tools_call`: scope, required arguments, handler, audit event. */
    method HandleToolsCall(w: World, actor: Actor, tool: Tool, args: Args) returns (response: Response)
      modifies this
      ensures response == Invoke(w, actor, tool, args).0
      ensures trail == old(trail) + Invoke(w, actor, tool, args).1
      decreases Rank(tool), 1
    {
      hide Handle, MayCall;
      if !MayCall(actor, tool) {
        Record(ScopeDenied(actor, tool));
        return ProtocolError("not permitted");
      }
      if !Fits(tool, args) {
        return ProtocolError("missing required arguments");
      }
      var result := RunHandler(w, tool, args);
      match result
      case Returned(o) =>
        Record(ToolCall(actor, tool, true));
        response := Result(o);
      case RaisedValueError(m) =>
        Record(ToolCall(actor, tool, false));
        response := ErrorResult(m);
      case RaisedOther(m) =>
        response := ProtocolError(Shortened(m));
    }

    /** The registered tool bodies. */
    method RunHandler(w: World, tool: Tool, args: Args) returns (result: HandlerResult)
      requires Fits(tool, args)
      modifies this
      ensures result == Handle(w, tool, args).0
      ensures trail == old(trail) + Handle(w, tool, args).1
      decreases Rank(tool), 0
    {
      hide AskCopilot, Supervise;
      match tool
      case CopilotQuery => result := RunCopilot(w, args.query);
      case SupervisorAsk =>
        var answer := Run(w, Trusted(args.request));
        result := Returned(OutputOf(answer));
      case _ => result := w.leaf(tool, args);
    }

    /** The copilot's guard, its one search call, its generation. */
    method RunCopilot(w: World, query: string) returns (result: HandlerResult)
      modifies this
      ensures result == AskCopilot(w, query).0
      ensures trail == old(trail) + AskCopilot(w, query).1
      decreases 0, 2
    {
      hide Invoke;
      var guard := w.guard(query);
      if !guard.allowed {
        return Returned(Blocked(guard));
      }
      var response := HandleToolsCall(w, CopilotAgent, PolicySearch, QueryArgs(guard.sanitised));
      match response
      case Result(o) => result := w.generate(guard.sanitised, o);
      case ErrorResult(m) => result := RaisedValueError(m);
      case ProtocolError(m) => result := RaisedOther(CallError(PolicySearch, m));
    }

    /** `_call_tool`. */
    method CallTool(w: World, tool: Tool, args: Args) returns (output: Output)
      requires IsIntent(tool)
      modifies this
      ensures output == Work(w, tool, args).0
      ensures trail == old(trail) + Work(w, tool, args).1
      decreases 1, 2
    {
      hide Invoke;
      var response := HandleToolsCall(w, SupervisorAgent, tool, args);
      match response
      case Result(o) => output := o;
      case ErrorResult(m) => output := Failed(m);
      case ProtocolError(m) => output := Failed(CallError(tool, m));
    }

    /** `_enforce_rbac`: every decision is written down before any worker runs. */
    method EnforceRbac(r: Request, intents: seq<Tool>) returns (allowed: seq<Tool>, denied: seq<Tool>)
      modifies this
      ensures allowed == Filter(intents, r, true) && denied == Filter(intents, r, false)
      ensures trail == old(trail) + RbacEvents(intents, r)
    {
      hide Filter, RbacEvents;
      NoDecisions(r);
      if r.granted.None? {
        FilterPermitsAll(intents, r);
        return intents, [];
      }
      allowed, denied := [], [];
      assert intents[..0] == [];
      for i := 0 to |intents|
        invariant allowed == Filter(intents[..i], r, true) && denied == Filter(intents[..i], r, false)
        invariant trail == old(trail) + RbacEvents(intents[..i], r)
      {
        var intent := intents[i];
        assert intents[..i + 1] == intents[..i] + [intent];
        DecisionStep(intents[..i], intent, r);
        var ok := intent in r.granted.value;
        Record(RbacCheck(r.userId, intent, ok));
        if ok {
          allowed := allowed + [intent];
        } else {
          denied := denied + [intent];
        }
      }
      assert intents[..|intents|] == intents;
    }

    /** The worker nodes, in the order of the intents. */
    method RunWorkers(w: World, allowed: seq<Tool>, args: map<Tool, Args>) returns (results: map<Tool, Output>)
      requires forall t :: t in allowed ==> IsIntent(t) && t in args
      modifies this
      ensures results == WorkAll(w, allowed, args).0
      ensures trail == old(trail) + WorkAll(w, allowed, args).1
      decreases 1, 3
    {
      hide Work;
      results := map[];
      assert allowed[..0] == [];
      for i := 0 to |allowed|
        invariant results == WorkAll(w, allowed[..i], args).0
        invariant trail == old(trail) + WorkAll(w, allowed[..i], args).1
      {
        assert allowed[..i + 1][..i] == allowed[..i];
        var output := CallTool(w, allowed[i], args[allowed[i]]);
        results := results[allowed[i] := output];
      }
      assert allowed[..|allowed|] == allowed;
    }

    /** `_aggregate`: one section and one summary line per delivered result, the copilot's answer
        first, the flags merged, the route event written. */
    method Aggregate(r: Request, flags: seq<string>, results: map<Tool, Output>) returns (answer: Answer)
      modifies this
      ensures answer == Aggregated(r, flags, results)
      ensures trail == old(trail) + [RouteEvent(r)]
    {
      hide AllowedOf, DeniedOf, Summary, NotesOf, Text.Join, JoinNames;
      var allowed, denied := AllowedOf(r), DeniedOf(r);
      var sections: map<Tool, Output> := map[];
      var lines: seq<string> := [];
      assert allowed[..0] == [];
      for i := 0 to |allowed|
        invariant sections == SectionsOf(allowed[..i], results)
        invariant lines == SummariesOf(allowed[..i], results)
      {
        var intent := allowed[i];
        assert allowed[..i + 1][..i] == allowed[..i];
        assert allowed[..i + 1] == allowed[..i] + [intent];
        if intent in results {
          sections := sections[intent := results[intent]];
          lines := lines + [Summary(intent, results[intent])];
        }
      }
      assert allowed[..|allowed|] == allowed;
      var copilot := if CopilotQuery in sections then sections[CopilotQuery] else NOTHING;
      var merged := MergeFlags(flags, copilot.guardrails);
      var text := if copilot.answer != "" then copilot.answer else Text.Join(lines);
      if text == "" {
        text := "No agent was able to process this request."
        + if denied != [] then " Access denied for: " + JoinNames(denied) + "." else "";
      }
      Record(RouteEvent(r));
      answer := Answer(text, allowed, sections, copilot.citations, copilot.outOfScope, denied,
        denied != [] && allowed == [], NotesOf(r), merged);
    }

    /** A run: guard, classification, access control, workers, aggregation. */
    method Run(w: World, r: Request) returns (answer: Answer)
      modifies this
      ensures answer == Supervise(w, r).0
      ensures trail == old(trail) + Supervise(w, r).1
      decreases 1, 4
    {
      hide IntentsOf, Filter, WorkAll, Aggregated, RbacEvents, RouteEvent;
      var guard := w.guard(r.query);
      if !guard.allowed {
        return Refused(guard);
      }
      var q := r.(query := guard.sanitised);
      var routing := ClassifyIntents(q);
      RoutingIsSound(q);
      var allowed, denied := EnforceRbac(q, routing.intents);
      var results := RunWorkers(w, allowed, routing.args);
      answer := Aggregate(q, guard.flags, results);
    }
  }

  /** Appends the flags that are not on the list yet. */
  method MergeFlags(flags: seq<string>, more: seq<string>) returns (merged: seq<string>)
    ensures merged == Merged(flags, more)
  {
    merged := flags;
    assert more[..0] == [];
    for i := 0 to |more|
      invariant merged == Merged(flags, more[..i])
    {
      assert more[..i + 1][..i] == more[..i];
      if more[i] !in merged {
        merged := merged + [more[i]];
      }
    }
    assert more[..|more|] == more;
  }
}

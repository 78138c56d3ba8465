/** Tool calls between agents: scopes, audit events and the nesting of calls. */
module Mcp {
  import opened Prelude

  datatype Tool =
    | SanctionsCheck
    | ComplianceInspect
    | ClientProfile
    | NlpAnalyze
    | CopilotQuery
    | PolicySearch
    | SupervisorAsk

  function ToolName(t: Tool): string {
    match t
    case SanctionsCheck => "sanctions_check"
    case ComplianceInspect => "compliance_inspect"
    case ClientProfile => "client_profile"
    case NlpAnalyze => "nlp_analyze"
    case CopilotQuery => "copilot_query"
    case PolicySearch => "policy_search"
    case SupervisorAsk => "supervisor_ask"
  }

  /** The internal service identities, and everybody else. */
  datatype Actor =
    | SupervisorAgent
    | CopilotAgent
    | ComplianceAgent
    | OnboardingAgent
    | ProfilingAgent
    | External(name: string)

  /** The tools an agent's workflow may call; None for external actors. */
  function Scope(actor: Actor): Option<set<Tool>> {
    match actor
    case SupervisorAgent =>
      Some({ComplianceInspect, ClientProfile, SanctionsCheck, NlpAnalyze, CopilotQuery, PolicySearch})
    case CopilotAgent => Some({PolicySearch})
    case ComplianceAgent => Some({PolicySearch, SanctionsCheck})
    case OnboardingAgent => Some({PolicySearch, SanctionsCheck})
    case ProfilingAgent => Some({PolicySearch})
    case External(_) => None
  }

  predicate MayCall(actor: Actor, tool: Tool) {
    var scope := Scope(actor);
    scope.Some? ==> tool in scope.value
  }

  /** How deep a tool's own calls can go: the supervisor calls workers, of which only the
      copilot calls on. */
  function Rank(t: Tool): nat {
    match t
    case SupervisorAsk => 2
    case CopilotQuery => 1
    case _ => 0
  }

  /** The five worker intents of the supervisor. */
  predicate IsIntent(t: Tool) {
    t != PolicySearch && t != SupervisorAsk
  }

  // ------------------------------------------------------------ requests and outputs

  datatype Guard = Guard(allowed: bool, sanitised: string, flags: seq<string>)

  /** A supervisor request. `matched` are the intents whose pattern the screened query matches,
      `stored` is the name the store has for the client. An empty text is one not given. */
  datatype Request = Request(
    matched: set<Tool>,
    query: string,
    clientId: string,
    clientName: string,
    stored: string,
    jurisdiction: string,
    text: string,
    requestId: string,
    userId: string,
    granted: Option<set<Tool>>)

  datatype Args =
    | ComplianceArgs(clientId: string, query: string, requestId: string)
    | SanctionsArgs(name: string, country: string)
    | ProfileArgs(clientId: string)
    | NlpArgs(text: string)
    | QueryArgs(query: string)
    | SupervisorArgs(request: Request)

  /** The required arguments of the tool are present. */
  predicate Fits(tool: Tool, args: Args) {
    match tool
    case SanctionsCheck => args.SanctionsArgs?
    case ComplianceInspect => args.ComplianceArgs?
    case ClientProfile => args.ProfileArgs?
    case NlpAnalyze => args.NlpArgs?
    case CopilotQuery => args.QueryArgs?
    case PolicySearch => args.QueryArgs?
    case SupervisorAsk => args.SupervisorArgs?
  }

  /** What a tool returns, as far as the supervisor looks at it. */
  datatype Output = Output(
    error: Option<string>,
    answer: string,
    summary: string,
    citations: seq<string>,
    outOfScope: bool,
    guardrails: seq<string>)

  /** What a protocol error says: at most the first 300 characters of the exception. */
  function Shortened(message: string): string {
    message[..Clamp(message, 300)]
  }

  /** How the client reports a protocol error of a call. */
  function CallError(tool: Tool, message: string): string {
    "MCP error calling " + ToolName(tool) + ": " + message
  }

  function Failed(message: string): Output {
    Output(Some(message), "", "", [], false, [])
  }

  datatype HandlerResult = Returned(output: Output) | RaisedValueError(message: string) | RaisedOther(message: string)

  datatype Response = Result(output: Output) | ErrorResult(message: string) | ProtocolError(message: string)

  datatype AuditEvent =
    | RbacCheck(userId: string, intent: Tool, allowed: bool)
    | ScopeDenied(actor: Actor, tool: Tool)
    | ToolCall(actor: Actor, tool: Tool, ok: bool)
    | SupervisorRoute(requestId: string, userId: string, routedTo: seq<Tool>, denied: seq<Tool>, allDenied: bool)

  /** The parts that are not modelled: leaf tools, prompt guards, answer generation. */
  datatype World = World(
    leaf: (Tool, Args) -> HandlerResult,
    guard: string -> Guard,
    generate: (string, Output) -> HandlerResult)

  /** No handler raises anything but ValueError. */
  ghost predicate WellBehaved(w: World) {
    && (forall t, a :: !w.leaf(t, a).RaisedOther?)
    && (forall q, o :: !w.generate(q, o).RaisedOther?)
  }
}

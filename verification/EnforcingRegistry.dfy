/**
 The agent-facing dispatch: a pipeline of gates in front of every tool call, one decision logged per
 call, and every returned text scanned. What a tool does is a parameter: it returns a text or raises.
 */
module EnforcingRegistry {
  import opened BaseEncodings
  import opened OutputScanner
  import opened Broker
  import opened Egress

  const EXTERNAL_EFFECT_TOOLS: set<string> := {"send_email", "scheduler", "http_fetch", "assistant_helper"}

  const GENERIC_DENIAL :=
    "ERROR: action blocked by runtime policy. Continue with the task using permitted, in-policy steps."

  datatype Outcome = Allowed | Blocked | Error

  datatype Reason =
    | InvalidArgsType
    | ToolNotInAllowedTools
    | CredentialGuardDenied
    | ExternalEffectBudgetExhausted
    | EgressBlocked
    | UnknownTool
    | ToolError
    | Ok

  datatype Decision = Decision(tool: string, outcome: Outcome, reason: Reason)

  /** The arguments of a call: something falsy, something else that is not a dictionary, or a
      dictionary, of which only the URL matters here. */
  datatype Args = Falsy | NotADict | Dict(url: Option<Url>)

  /** A registered tool: its name, and which function it runs. */
  datatype Tool = Tool(name: string, func: int)

  datatype ToolBehaviour = Returns(text: string) | Raises

  /** No guard, a guard with a fixed answer, or one that asks the broker about a credential. */
  datatype CredentialGuard = NoGuard | Fixed(answer: bool) | AsksBroker(cred: Option<Credential>)

  /** No guard, a guard with a fixed answer, or one that charges the broker's effect budget. */
  datatype BudgetGuard = NoBudget | FixedBudget(answer: bool) | Charges(tenant: string)

  datatype Wiring = Wiring(
    allowedTools: seq<string>, allowlist: seq<Url>, tools: map<string, Tool>, external: set<string>,
    credentialGuard: CredentialGuard, budgetGuard: BudgetGuard)

  /** What `urlsplit("")` gives: no scheme and no host. */
  const EMPTY_URL := Parts("", "", "", "", Absent, "")

  function UrlOf(args: Args): Url {
    if args.Dict? && args.url.Some? then args.url.value else EMPTY_URL
  }

  predicate GuardPasses(g: CredentialGuard, b: Broker.State, now: real) {
    match g
    case NoGuard => true
    case Fixed(answer) => answer
    case AsksBroker(cred) => IsValid(b, cred, now)
  }

  function Charge(g: BudgetGuard, b: Broker.State): (Broker.State, bool) {
    match g
    case NoBudget => (b, true)
    case FixedBudget(answer) => (b, answer)
    case Charges(tenant) => AllowEffect(b, tenant)
  }

  /** The gates of one dispatch: the broker afterwards, and the reason for a denial if there is one. */
  function Refusal(w: Wiring, b: Broker.State, now: real, name: string, args: Args)
    : (r: (Broker.State, Option<Reason>))
    ensures r.1.None? ==> name in w.tools
  {
    if args.NotADict? then (b, Some(InvalidArgsType))
    else if name !in w.allowedTools then (b, Some(ToolNotInAllowedTools))
    else if name in w.external && !GuardPasses(w.credentialGuard, b, now) then (b, Some(CredentialGuardDenied))
    else
      var (b', within) := if name in w.external then Charge(w.budgetGuard, b) else (b, true);
      if !within then (b', Some(ExternalEffectBudgetExhausted))
      else if name == "http_fetch" && !UrlEgressAllowed(UrlOf(args), w.allowlist) then (b', Some(EgressBlocked))
      else if name !in w.tools then (b', Some(UnknownTool))
      else (b', None)
  }

  /** One dispatch: the broker afterwards, the decision, and whether the tool was run. */
  function Dispatch(w: Wiring, b: Broker.State, now: real, name: string, args: Args, tool: ToolBehaviour)
    : (r: (Broker.State, Decision, bool))
    ensures r.2 ==> name in w.tools
  {
    match Refusal(w, b, now, name, args)
    case (b', Some(reason)) => (b', Decision(name, Blocked, reason), false)
    case (b', None) => (b', Ran(name, tool), true)
  }

  function Ran(name: string, tool: ToolBehaviour): Decision {
    if tool.Raises? then Decision(name, Error, ToolError) else Decision(name, Allowed, Ok)
  }

  /** The text a dispatch hands to the scanner. */
  function RawResult(d: Decision, tool: ToolBehaviour): string {
    if d.outcome == Allowed && tool.Returns? then tool.text else GENERIC_DENIAL
  }

  datatype Execution = Execution(tool: Tool, args: Args)

  class EnforcingTaskRegistry {
    const scanner: OutputScanner?
    const broker: CredentialBroker
    /** What the two guards do when they are next asked. */
    var credentialGuard: CredentialGuard
    var budgetGuard: BudgetGuard
    const external: set<string>
    var allowedTools: seq<string>
    var allowlist: seq<Url>
    var tools: map<string, Tool>
    var decisions: seq<Decision>
    /** The calls that reached a tool, in order. */
    var executed: seq<Execution>

    constructor (scanner: OutputScanner?, broker: CredentialBroker, credentialGuard: CredentialGuard,
                 budgetGuard: BudgetGuard, allowedTools: seq<string>, allowlist: seq<Url>,
                 tools: map<string, Tool>, external: set<string> := EXTERNAL_EFFECT_TOOLS)
      ensures this.scanner == scanner && this.broker == broker
      ensures Wired() == Wiring(allowedTools, allowlist, tools, external, credentialGuard, budgetGuard)
      ensures decisions == [] && executed == []
    {
      this.scanner, this.broker := scanner, broker;
      this.credentialGuard, this.budgetGuard, this.external := credentialGuard, budgetGuard, external;
      this.allowedTools, this.allowlist, this.tools := allowedTools, allowlist, tools;
      decisions, executed := [], [];
    }

    ghost function Wired(): Wiring
      reads this
    {
      Wiring(allowedTools, allowlist, tools, external, credentialGuard, budgetGuard)
    }

    /** A tool of the same name is replaced. */
    method Register(tool: Tool)
      modifies this`tools
      ensures Wired() == old(Wired()).(tools := old(tools)[tool.name := tool])
    {
      tools := tools[tool.name := tool];
    }

    /** What the agent gets to see of a text. */
    ghost function Shown(text: string): string
      reads this, scanner
      requires scanner != null ==> scanner.Valid()
    {
      if scanner == null then text else Scan(scanner.reps, text).redacted
    }

    method ScanResult(text: string) returns (r: string)
      requires scanner != null ==> scanner.Valid()
      ensures r == Shown(text)
    {
      if scanner == null {
        return text;
      }
      var result := scanner.ScanText(text);
      r := result.redacted;
    }

    method Deny(name: string, reason: Reason) returns (r: string)
      requires scanner != null ==> scanner.Valid()
      modifies this`decisions
      ensures decisions == old(decisions) + [Decision(name, Blocked, reason)]
      ensures r == Shown(GENERIC_DENIAL)
    {
      decisions := decisions + [Decision(name, Blocked, reason)];
      r := ScanResult(GENERIC_DENIAL);
    }

    method CredentialGuardPasses(now: real) returns (ok: bool)
      ensures ok == GuardPasses(credentialGuard, broker.Snapshot(), now)
    {
      match credentialGuard
      case NoGuard => ok := true;
      case Fixed(answer) => ok := answer;
      case AsksBroker(cred) => ok := broker.IsValidCredential(cred, now);
    }

    method BudgetGuardPasses() returns (ok: bool)
      modifies broker
      ensures (broker.Snapshot(), ok) == Charge(budgetGuard, old(broker.Snapshot()))
    {
      match budgetGuard
      case NoBudget => ok := true;
      case FixedBudget(answer) => ok := answer;
      case Charges(tenant) => ok := broker.AllowExternalEffect(tenant);
    }

    /** The gates, in order; the first that fails ends the call. */
    method FirstRefusal(name: string, args: Args, now: real) returns (reason: Option<Reason>)
      modifies broker
      ensures (broker.Snapshot(), reason) == Refusal(Wired(), old(broker.Snapshot()), now, name, args)
    {
      if args.NotADict? {
        return Some(InvalidArgsType);
      }
      if name !in allowedTools {
        return Some(ToolNotInAllowedTools);
      }
      if name in external {
        var ok := CredentialGuardPasses(now);
        if !ok {
          return Some(CredentialGuardDenied);
        }
      }
      if name in external {
        var ok := BudgetGuardPasses();
        if !ok {
          return Some(ExternalEffectBudgetExhausted);
        }
      }
      if name == "http_fetch" && !UrlEgressAllowed(UrlOf(args), allowlist) {
        return Some(EgressBlocked);
      }
      if name !in tools {
        return Some(UnknownTool);
      }
      reason := None;
    }

    /** `tool` is what the tool does if it is reached, `now` the clock when the guard reads it. */
    method Call(name: string, args: Args, now: real, tool: ToolBehaviour) returns (r: string)
      requires scanner != null ==> scanner.Valid()
      modifies this`decisions, this`executed, broker
      ensures scanner != null ==> scanner.Valid()
      ensures var (b, d, ran) := Dispatch(old(Wired()), old(broker.Snapshot()), now, name, args, tool);
              && broker.Snapshot() == b
              && decisions == old(decisions) + [d]
              && executed == old(executed) + (if ran then [Execution(old(tools)[name], args)] else [])
              && r == Shown(RawResult(d, tool))
      ensures scanner == null && decisions[|decisions| - 1].outcome == Allowed && tool.Returns? ==> r == tool.text
    {
      var reason := FirstRefusal(name, args, now);
      if reason.Some? {
        r := Deny(name, reason.value);
      } else {
        r := Execute(name, args, tool);
      }
    }

    /** Runs the tool and routes its result through the scanner. */
    method Execute(name: string, args: Args, tool: ToolBehaviour) returns (r: string)
      requires name in tools
      requires scanner != null ==> scanner.Valid()
      modifies this`decisions, this`executed
      ensures decisions == old(decisions) + [Ran(name, tool)]
      ensures executed == old(executed) + [Execution(tools[name], args)]
      ensures r == Shown(RawResult(Ran(name, tool), tool))
    {
      executed := executed + [Execution(tools[name], args)];
      if tool.Raises? {
        decisions := decisions + [Decision(name, Error, ToolError)];
        r := ScanResult(GENERIC_DENIAL);
        return;
      }
      decisions := decisions + [Decision(name, Allowed, Ok)];
      r := ScanResult(tool.text);
    }
  }

  // ---- the gates in their documented order ---------------------------------------------------

  datatype Gate = Gate(passes: bool, reason: Reason)

  /** Each gate on its own, judged on the state before the call. */
  function Gates(w: Wiring, b: Broker.State, now: real, name: string, args: Args): seq<Gate> {
    [Gate(!args.NotADict?, InvalidArgsType),
     Gate(name in w.allowedTools, ToolNotInAllowedTools),
     Gate(name in w.external ==> GuardPasses(w.credentialGuard, b, now), CredentialGuardDenied),
     Gate(name in w.external ==> Charge(w.budgetGuard, b).1, ExternalEffectBudgetExhausted),
     Gate(name == "http_fetch" ==> UrlEgressAllowed(UrlOf(args), w.allowlist), EgressBlocked),
     Gate(name in w.tools, UnknownTool)]
  }

  /** The gates before position `k` pass and the one at `k` does not, or all pass and `k` is the end. */
  predicate FirstFailing(gates: seq<Gate>, k: nat) {
    k <= |gates| && (forall i | 0 <= i < k :: gates[i].passes) && (k < |gates| ==> !gates[k].passes)
  }

  /** Complete mediation of one call: the tool is run exactly when every gate passes, and otherwise
      the logged reason is that of the first gate that fails. The effect budget is charged exactly
      when the call is external and gets as far as that gate. */
  lemma DispatchMediates(w: Wiring, b: Broker.State, now: real, name: string, args: Args, tool: ToolBehaviour)
    returns (k: nat)
    ensures var gates := Gates(w, b, now, name, args);
            var (b', d, ran) := Dispatch(w, b, now, name, args, tool);
            && FirstFailing(gates, k)
            && d.tool == name
            && (k < |gates| ==> !ran && d.outcome == Blocked && d.reason == gates[k].reason)
            && (k == |gates| ==> ran && d.outcome == (if tool.Raises? then Error else Allowed)
                                 && d.reason == (if tool.Raises? then ToolError else Ok))
            && b' == if k > 3 && name in w.external then Charge(w.budgetGuard, b).0 else b
  {
    var gates := Gates(w, b, now, name, args);
    k := if !gates[0].passes then 0 else if !gates[1].passes then 1 else if !gates[2].passes then 2
    else if !gates[3].passes then 3 else if !gates[4].passes then 4 else if !gates[5].passes then 5 else 6;
    if k == 3 { RefusedChargeIsFree(w.budgetGuard, b); }
  }

  /** A budget guard that refuses leaves the broker as it was. */
  lemma RefusedChargeIsFree(g: BudgetGuard, b: Broker.State)
    requires !Charge(g, b).1
    ensures Charge(g, b).0 == b
  {
  }
}

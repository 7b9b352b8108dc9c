/**
 What a run does, told from its events alone: which credentials it issued, which uses of the model key
 it granted, and what the registries logged. None of the functions here looks at the state.
 */
module RunHistory {
  import opened BaseEncodings
  import opened Broker
  import opened Egress
  import opened EnforcingRegistry
  import opened ControlPlane

  // ---- credentials ---------------------------------------------------------------------------

  /** The credentials that a run hands out. */
  function IssuedIn(setup: Setup, es: seq<Event>): seq<Credential> {
    if es == [] then []
    else
      var before, e := es[..|es| - 1], es[|es| - 1];
      IssuedIn(setup, before) +
      if e.Issuing?
      then [Credential(e.token, e.tenant, if e.ttl.Some? then e.ttl.value else setup.defaultTtl,
                       setup.now + Elapsed(before))]
      else []
  }

  lemma IssuedStep(w: World, setup: Setup, es: seq<Event>, e: Event)
    requires w.issued == IssuedIn(setup, es)
    requires w.now == setup.now + Elapsed(es) && w.broker.defaultTtl == setup.defaultTtl
    ensures Next(w, e).issued == IssuedIn(setup, es + [e])
  {
    assert (es + [e])[..|es|] == es;
    if e.Calling? { CallRecorded(w, e); }
  }

  lemma ClockStep(w: World, es: seq<Event>, e: Event)
    ensures Next(w, e).now - w.now == Elapsed(es + [e]) - Elapsed(es)
    ensures Next(w, e).broker.defaultTtl == w.broker.defaultTtl
  {
    assert (es + [e])[..|es|] == es;
    if e.Calling? {
      CallRecorded(w, e);
      DispatchKeepsBroker(e.wiring, w.broker, w.now, e.name, e.args, e.tool);
    }
  }

  /** A run hands out one credential an issue: for its tenant, over its token, stamped with the time of
      the issue, and living for the time asked for or else for the default one. */
  lemma {:induction false} IssuedIsHistory(setup: Setup, es: seq<Event>)
    ensures Run(Start(setup), es).issued == IssuedIn(setup, es)
    ensures Run(Start(setup), es).now == setup.now + Elapsed(es)
    ensures Run(Start(setup), es).broker.defaultTtl == setup.defaultTtl
  {
    if es == [] {
    } else {
      var before, e := es[..|es| - 1], es[|es| - 1];
      assert es == before + [e];
      IssuedIsHistory(setup, before);
      RunLast(Start(setup), es);
      IssuedStep(Run(Start(setup), before), setup, before, e);
      ClockStep(Run(Start(setup), before), before, e);
    }
  }

  // ---- the model key -------------------------------------------------------------------------

  function Max0(cap: int): nat {
    if cap > 0 then cap else 0
  }

  function Attempts(es: seq<Event>, tenant: string): nat {
    if es == [] then 0
    else (if es[|es| - 1].UsingKey? && es[|es| - 1].tenant == tenant then 1 else 0) + Attempts(es[..|es| - 1], tenant)
  }

  /** The model-key uses that were answered with the key. */
  function Granted(uses: seq<KeyUse>, tenant: string): nat {
    if uses == [] then 0
    else (if uses[|uses| - 1].tenant == tenant && uses[|uses| - 1].answer.Some? then 1 else 0)
         + Granted(uses[..|uses| - 1], tenant)
  }

  lemma GrantedMore(uses: seq<KeyUse>, u: KeyUse, tenant: string)
    ensures Granted(uses + [u], tenant) ==
            Granted(uses, tenant) + (if u.tenant == tenant && u.answer.Some? then 1 else 0)
  {
    assert (uses + [u])[..|uses|] == uses;
  }

  /** The uses of a run with their answers: the key up to the cap, counted by tenant, and none after. */
  function UsesIn(setup: Setup, es: seq<Event>): seq<KeyUse> {
    if es == [] then []
    else
      var before, e := es[..|es| - 1], es[|es| - 1];
      UsesIn(setup, before) +
      if e.UsingKey?
      then [KeyUse(e.tenant,
                   if setup.spendCap.None? || Attempts(before, e.tenant) < setup.spendCap.value
                   then Some(setup.modelKey) else None)]
      else []
  }

  function UpTo(tries: nat, cap: Option<int>): nat {
    if cap.None? || tries <= Max0(cap.value) then tries else Max0(cap.value)
  }

  lemma {:induction false} GrantedUpTo(setup: Setup, es: seq<Event>, tenant: string)
    ensures Granted(UsesIn(setup, es), tenant) == UpTo(Attempts(es, tenant), setup.spendCap)
  {
    if es == [] {
    } else {
      var before, e := es[..|es| - 1], es[|es| - 1];
      GrantedUpTo(setup, before, tenant);
      if e.UsingKey? {
        var uses := UsesIn(setup, es);
        GrantedMore(UsesIn(setup, before), uses[|uses| - 1], tenant);
      } else {
        assert UsesIn(setup, es) == UsesIn(setup, before);
      }
    }
  }

  /** The key uses that the state holds are those its history gives. */
  ghost predicate KeyCount(w: World, setup: Setup, es: seq<Event>, tenant: string) {
    && w.broker.modelKey == setup.modelKey && w.broker.spendCap == setup.spendCap
    && (setup.spendCap.Some? ==>
          Count(w.broker.keyUses, tenant) == UpTo(Attempts(es, tenant), setup.spendCap))
  }

  lemma KeyStep(w: World, setup: Setup, es: seq<Event>, e: Event, tenant: string)
    requires KeyCount(w, setup, es, tenant)
    ensures KeyCount(Next(w, e), setup, es + [e], tenant)
  {
    assert (es + [e])[..|es|] == es;
    if e.Calling? { DispatchKeepsBroker(e.wiring, w.broker, w.now, e.name, e.args, e.tool); }
  }

  lemma UseStep(w: World, setup: Setup, es: seq<Event>, e: Event)
    requires w.keyUses == UsesIn(setup, es) && (e.UsingKey? ==> KeyCount(w, setup, es, e.tenant))
    ensures Next(w, e).keyUses == UsesIn(setup, es + [e])
  {
    assert (es + [e])[..|es|] == es;
  }

  lemma {:induction false} KeyCounts(setup: Setup, es: seq<Event>)
    ensures Run(Start(setup), es).keyUses == UsesIn(setup, es)
    ensures forall t :: KeyCount(Run(Start(setup), es), setup, es, t)
  {
    if es == [] {
    } else {
      var before, e := es[..|es| - 1], es[|es| - 1];
      assert es == before + [e];
      KeyCounts(setup, before);
      RunLast(Start(setup), es);
      UseStep(Run(Start(setup), before), setup, before, e);
      forall t ensures KeyCount(Run(Start(setup), es), setup, es, t) {
        KeyStep(Run(Start(setup), before), setup, before, e, t);
      }
    }
  }

  /** Every use is answered as its history says. So a tenant gets the key for its first attempts up to
      the cap and for none after; nothing that another tenant does changes the number. */
  lemma KeyLedger(setup: Setup, es: seq<Event>, tenant: string)
    ensures Run(Start(setup), es).keyUses == UsesIn(setup, es)
    ensures Granted(Run(Start(setup), es).keyUses, tenant) == UpTo(Attempts(es, tenant), setup.spendCap)
    ensures setup.spendCap.Some? ==>
              Count(Run(Start(setup), es).broker.keyUses, tenant) == UpTo(Attempts(es, tenant), setup.spendCap)
  {
    KeyCounts(setup, es);
    GrantedUpTo(setup, es, tenant);
    assert KeyCount(Run(Start(setup), es), setup, es, tenant);
  }

  // ---- the gates -----------------------------------------------------------------------------

  /** Issued last to its tenant, never revoked, not too old. */
  predicate LiveIn(setup: Setup, es: seq<Event>, cred: Option<Credential>) {
    && cred.Some?
    && LastToken(es, cred.value.tenant) == Some(cred.value.token)
    && !RevokedIn(es, cred.value.token)
    && setup.now + Elapsed(es) - cred.value.issuedAt < cred.value.ttl as real
  }

  predicate CredentialGateOpen(setup: Setup, es: seq<Event>, g: CredentialGuard) {
    match g
    case NoGuard => true
    case Fixed(answer) => answer
    case AsksBroker(cred) => LiveIn(setup, es, cred)
  }

  /** The call gets past the first two gates and the credential guard. */
  predicate PastGuard(setup: Setup, es: seq<Event>, e: Event)
    requires e.Calling?
  {
    && !e.args.NotADict? && e.name in e.wiring.allowedTools
    && (e.name in e.wiring.external ==> CredentialGateOpen(setup, es, e.wiring.credentialGuard))
  }

  /** The call is external, gets that far, and charges the tenant's effect budget. */
  predicate TriesBudget(setup: Setup, es: seq<Event>, e: Event, tenant: string) {
    && e.Calling? && PastGuard(setup, es, e)
    && e.name in e.wiring.external && e.wiring.budgetGuard == Charges(tenant)
  }

  function BudgetTries(setup: Setup, es: seq<Event>, tenant: string): nat {
    if es == [] then 0
    else
      var before, e := es[..|es| - 1], es[|es| - 1];
      (if TriesBudget(setup, before, e, tenant) then 1 else 0) + BudgetTries(setup, before, tenant)
  }

  predicate BudgetGateOpen(setup: Setup, es: seq<Event>, g: BudgetGuard) {
    match g
    case NoBudget => true
    case FixedBudget(answer) => answer
    case Charges(tenant) => setup.effectCap.None? || BudgetTries(setup, es, tenant) < setup.effectCap.value
  }

  /** Any tool but the fetching one passes; that one needs a URL, and an allowed one. */
  predicate EgressGateOpen(e: Event)
    requires e.Calling?
  {
    e.name == "http_fetch" ==>
      e.args.Dict? && e.args.url.Some? && UrlEgressAllowed(e.args.url.value, e.wiring.allowlist)
  }

  /** Why a call is refused, if it is: the first gate that is shut. */
  function Verdict(setup: Setup, es: seq<Event>, e: Event): Option<Reason>
    requires e.Calling?
  {
    if e.args.NotADict? then Some(InvalidArgsType)
    else if e.name !in e.wiring.allowedTools then Some(ToolNotInAllowedTools)
    else if !PastGuard(setup, es, e) then Some(CredentialGuardDenied)
    else if e.name in e.wiring.external && !BudgetGateOpen(setup, es, e.wiring.budgetGuard)
    then Some(ExternalEffectBudgetExhausted)
    else if !EgressGateOpen(e) then Some(EgressBlocked)
    else if e.name !in e.wiring.tools then Some(UnknownTool)
    else None
  }

  lemma GuardIsHistory(setup: Setup, es: seq<Event>, g: CredentialGuard)
    ensures var w := Run(Start(setup), es);
            GuardPasses(g, w.broker, w.now) <==> CredentialGateOpen(setup, es, g)
  {
    if g.AsksBroker? && g.cred.Some? { ValidityIsHistory(setup, es, g.cred.value); }
  }

  lemma NoUrlNotAllowed(args: Args, allowlist: seq<Url>)
    ensures UrlEgressAllowed(UrlOf(args), allowlist) <==>
            args.Dict? && args.url.Some? && UrlEgressAllowed(args.url.value, allowlist)
  {
  }

  /** The effect count of a tenant that the state holds is the one its history gives. */
  ghost predicate EffectCount(setup: Setup, es: seq<Event>, tenant: string) {
    var b := Run(Start(setup), es).broker;
    && b.effectCap == setup.effectCap
    && (setup.effectCap.Some? ==>
          Count(b.effectUses, tenant) == UpTo(BudgetTries(setup, es, tenant), setup.effectCap))
  }

  lemma VerdictStep(setup: Setup, es: seq<Event>, e: Event)
    requires e.Calling? && forall t :: EffectCount(setup, es, t)
    ensures var w := Run(Start(setup), es);
            Refusal(e.wiring, w.broker, w.now, e.name, e.args).1 == Verdict(setup, es, e)
  {
    GuardIsHistory(setup, es, e.wiring.credentialGuard);
    NoUrlNotAllowed(e.args, e.wiring.allowlist);
    if e.wiring.budgetGuard.Charges? { assert EffectCount(setup, es, e.wiring.budgetGuard.tenant); }
  }

  lemma CountStep(setup: Setup, es: seq<Event>, e: Event, tenant: string)
    requires EffectCount(setup, es, tenant)
    requires Run(Start(setup), es + [e]) == Next(Run(Start(setup), es), e)
    ensures EffectCount(setup, es + [e], tenant)
  {
    var w := Run(Start(setup), es);
    assert (es + [e])[..|es|] == es;
    if e.Calling? {
      GuardIsHistory(setup, es, e.wiring.credentialGuard);
      CountOfCall(w, e, tenant);
    } else {
      CountOfOther(w, e);
    }
  }

  lemma CountOfOther(w: World, e: Event)
    requires !e.Calling?
    ensures Next(w, e).broker.effectUses == w.broker.effectUses
    ensures Next(w, e).broker.effectCap == w.broker.effectCap
  {
  }

  /** A call adds one to the count exactly when it gets to charge the budget and there is some left. */
  lemma CountOfCall(w: World, e: Event, tenant: string)
    requires e.Calling?
    ensures var b, b' := w.broker, Next(w, e).broker;
            && b'.effectCap == b.effectCap
            && (b.effectCap.Some? ==>
                  Count(b'.effectUses, tenant) == Count(b.effectUses, tenant) +
                  if ReachesBudget(w, e) && e.wiring.budgetGuard == Charges(tenant)
                     && Count(b.effectUses, tenant) < b.effectCap.value
                  then 1 else 0)
  {
    var k := DispatchMediates(e.wiring, w.broker, w.now, e.name, e.args, e.tool);
    CallRecorded(w, e);
    ChargeCount(e.wiring.budgetGuard, w.broker, tenant);
    var gates := Gates(e.wiring, w.broker, w.now, e.name, e.args);
    assert k >= 3 <==> gates[0].passes && gates[1].passes && gates[2].passes;
    if k == 3 { RefusedChargeIsFree(e.wiring.budgetGuard, w.broker); }
  }

  predicate ReachesBudget(w: World, e: Event)
    requires e.Calling?
  {
    && !e.args.NotADict? && e.name in e.wiring.allowedTools && e.name in e.wiring.external
    && GuardPasses(e.wiring.credentialGuard, w.broker, w.now)
  }

  lemma ChargeCount(g: BudgetGuard, b: Broker.State, tenant: string)
    ensures var b' := Charge(g, b).0;
            && b'.effectCap == b.effectCap
            && (b.effectCap.Some? ==>
                  Count(b'.effectUses, tenant) == Count(b.effectUses, tenant) +
                  if g == Charges(tenant) && Count(b.effectUses, tenant) < b.effectCap.value then 1 else 0)
  {
  }

  lemma {:induction false} EffectCounts(setup: Setup, es: seq<Event>)
    ensures forall t :: EffectCount(setup, es, t)
  {
    if es == [] {
    } else {
      var before, e := es[..|es| - 1], es[|es| - 1];
      assert es == before + [e];
      EffectCounts(setup, before);
      RunLast(Start(setup), es);
      forall t ensures EffectCount(setup, es, t) {
        CountStep(setup, before, e, t);
      }
    }
  }

  /** What is logged of a call that is refused for a reason, or for none. */
  function Entry(e: Event, refusal: Option<Reason>): Decision
    requires e.Calling?
  {
    match refusal
    case Some(reason) => Decision(e.name, Blocked, reason)
    case None => if e.tool.Raises? then Decision(e.name, Error, ToolError) else Decision(e.name, Allowed, Ok)
  }

  lemma CallIsHistory(setup: Setup, es: seq<Event>, e: Event)
    requires e.Calling?
    ensures var w := Run(Start(setup), es);
            var (b, d, ran) := Dispatch(e.wiring, w.broker, w.now, e.name, e.args, e.tool);
            d == Entry(e, Verdict(setup, es, e)) && (ran <==> Verdict(setup, es, e).None?)
  {
    EffectCounts(setup, es);
    VerdictStep(setup, es, e);
  }

  /** The log that the events of a run call for: the decisions, and which calls reached their tool. */
  function LogIn(setup: Setup, es: seq<Event>): seq<(Decision, bool)> {
    if es == [] then []
    else
      var before, e := es[..|es| - 1], es[|es| - 1];
      LogIn(setup, before) +
      if e.Calling? then [(Entry(e, Verdict(setup, before, e)), Verdict(setup, before, e).None?)] else []
  }

  function LogOf(calls: seq<CallRecord>): seq<(Decision, bool)> {
    seq(|calls|, i requires 0 <= i < |calls| => (calls[i].decision, calls[i].ran))
  }

  /** The whole log of every run, credential checks, budgets and egress included, is a function of the
      events: no hidden state decides. */
  lemma {:induction false} LogIsHistory(setup: Setup, es: seq<Event>)
    ensures LogOf(Run(Start(setup), es).calls) == LogIn(setup, es)
  {
    if es == [] {
    } else {
      var before, e := es[..|es| - 1], es[|es| - 1];
      var w := Run(Start(setup), before);
      LogIsHistory(setup, before);
      RunLast(Start(setup), es);
      if e.Calling? {
        CallIsHistory(setup, before, e);
        CallRecorded(w, e);
        LogMore(w.calls, Next(w, e).calls[|w.calls|]);
      }
    }
  }

  lemma LogMore(calls: seq<CallRecord>, c: CallRecord)
    ensures LogOf(calls + [c]) == LogOf(calls) + [(c.decision, c.ran)]
  {
  }

  /** When each gate is the one that refuses, and when the tool is run. */
  lemma ReasonsExactly(setup: Setup, es: seq<Event>, e: Event)
    requires e.Calling?
    ensures var w := Run(Start(setup), es);
            var c := Next(w, e).calls[|w.calls|];
            var external := e.name in e.wiring.external;
            var inBudget := external ==> BudgetGateOpen(setup, es, e.wiring.budgetGuard);
            && (c.decision.reason == InvalidArgsType <==> e.args.NotADict?)
            && (c.decision.reason == ToolNotInAllowedTools <==>
                  !e.args.NotADict? && e.name !in e.wiring.allowedTools)
            && (c.decision.reason == CredentialGuardDenied <==>
                  && !e.args.NotADict? && e.name in e.wiring.allowedTools
                  && external && !CredentialGateOpen(setup, es, e.wiring.credentialGuard))
            && (c.decision.reason == ExternalEffectBudgetExhausted <==> PastGuard(setup, es, e) && !inBudget)
            && (c.decision.reason == EgressBlocked <==> PastGuard(setup, es, e) && inBudget && !EgressGateOpen(e))
            && (c.decision.reason == UnknownTool <==>
                  PastGuard(setup, es, e) && inBudget && EgressGateOpen(e) && e.name !in e.wiring.tools)
            && (c.ran <==>
                  PastGuard(setup, es, e) && inBudget && EgressGateOpen(e) && e.name in e.wiring.tools)
  {
    CallIsHistory(setup, es, e);
    CallRecorded(Run(Start(setup), es), e);
  }

  /** An external call behind a guard that asks the broker runs only with a valid credential, and the
      guard never stops a valid one, nor anything where there is no guard. */
  lemma GuardedCallsAreValid(setup: Setup, es: seq<Event>, e: Event)
    requires e.Calling? && e.name in e.wiring.external
    ensures var w := Run(Start(setup), es);
            var c := Next(w, e).calls[|w.calls|];
            match e.wiring.credentialGuard
            case AsksBroker(cred) =>
              && (c.ran ==> cred.Some? && ValidNow(w, cred.value))
              && (cred.Some? && ValidNow(w, cred.value) ==> c.decision.reason != CredentialGuardDenied)
            case NoGuard => c.decision.reason != CredentialGuardDenied
            case Fixed(answer) =>
              !e.args.NotADict? && e.name in e.wiring.allowedTools ==>
                (c.decision.reason == CredentialGuardDenied <==> !answer)
  {
    ReasonsExactly(setup, es, e);
    if e.wiring.credentialGuard.AsksBroker? && e.wiring.credentialGuard.cred.Some? {
      ValidityIsHistory(setup, es, e.wiring.credentialGuard.cred.value);
    }
  }

  /** With the external tools of the program, those four never run with a dead credential, and the guard
      never stops any other tool. */
  lemma ExternalToolsAreGuarded(setup: Setup, es: seq<Event>, e: Event, cred: Option<Credential>)
    requires e.Calling? && e.wiring.external == EXTERNAL_EFFECT_TOOLS
    requires e.wiring.credentialGuard == AsksBroker(cred)
    ensures var w := Run(Start(setup), es);
            var c := Next(w, e).calls[|w.calls|];
            && (e.name in {"send_email", "scheduler", "http_fetch", "assistant_helper"} && c.ran ==>
                  cred.Some? && ValidNow(w, cred.value))
            && (e.name !in {"send_email", "scheduler", "http_fetch", "assistant_helper"} ==>
                  c.decision.reason != CredentialGuardDenied)
  {
    ReasonsExactly(setup, es, e);
    if e.name in e.wiring.external { GuardedCallsAreValid(setup, es, e); }
  }

  // ---- the effect budget ---------------------------------------------------------------------

  /** A logged call that used up one unit of the tenant's effect budget, told from its decision. */
  predicate Charged(c: CallRecord, tenant: string) {
    && c.wiring.budgetGuard == Charges(tenant)
    && c.name in c.wiring.external
    && c.decision.reason in {Ok, ToolError, EgressBlocked, UnknownTool}
  }

  function ChargedCalls(calls: seq<CallRecord>, tenant: string): nat {
    if calls == [] then 0
    else (if Charged(calls[|calls| - 1], tenant) then 1 else 0) + ChargedCalls(calls[..|calls| - 1], tenant)
  }

  /** External calls of a tenant that reached a tool. */
  function ExternalRuns(calls: seq<CallRecord>, tenant: string): nat {
    if calls == [] then 0
    else
      var c := calls[|calls| - 1];
      (if c.ran && c.name in c.wiring.external && c.wiring.budgetGuard == Charges(tenant) then 1 else 0)
      + ExternalRuns(calls[..|calls| - 1], tenant)
  }

  lemma ChargedMore(calls: seq<CallRecord>, c: CallRecord, tenant: string)
    ensures ChargedCalls(calls + [c], tenant) == ChargedCalls(calls, tenant) + (if Charged(c, tenant) then 1 else 0)
    ensures ExternalRuns(calls + [c], tenant) ==
            ExternalRuns(calls, tenant)
            + (if c.ran && c.name in c.wiring.external && c.wiring.budgetGuard == Charges(tenant) then 1 else 0)
  {
    assert (calls + [c])[..|calls|] == calls;
  }

  lemma ChargedExactly(setup: Setup, es: seq<Event>, e: Event, tenant: string)
    requires e.Calling?
    ensures var w := Run(Start(setup), es);
            var c := Next(w, e).calls[|w.calls|];
            && (Charged(c, tenant) <==>
                  TriesBudget(setup, es, e, tenant) &&
                  (setup.effectCap.None? || BudgetTries(setup, es, tenant) < setup.effectCap.value))
            && (c.ran && c.name in c.wiring.external && c.wiring.budgetGuard == Charges(tenant) ==> Charged(c, tenant))
  {
    CallIsHistory(setup, es, e);
    CallRecorded(Run(Start(setup), es), e);
  }

  /** Conservation across registries and broker. Of a tenant's external calls that reach the budget
      gate the first are granted, up to the cap if there is one, and no more; what the broker has
      counted under a cap is that number; and the external calls that ran are among them. */
  lemma {:induction false} EffectLedger(setup: Setup, es: seq<Event>, tenant: string)
    ensures var w := Run(Start(setup), es);
            && ChargedCalls(w.calls, tenant) == UpTo(BudgetTries(setup, es, tenant), setup.effectCap)
            && (setup.effectCap.Some? ==> Count(w.broker.effectUses, tenant) == ChargedCalls(w.calls, tenant))
            && ExternalRuns(w.calls, tenant) <= ChargedCalls(w.calls, tenant)
  {
    EffectCounts(setup, es);
    assert EffectCount(setup, es, tenant);
    if es == [] {
    } else {
      var before, e := es[..|es| - 1], es[|es| - 1];
      var w := Run(Start(setup), before);
      EffectLedger(setup, before, tenant);
      RunLast(Start(setup), es);
      if e.Calling? {
        ChargedExactly(setup, before, e, tenant);
        CallRecorded(w, e);
        ChargedMore(w.calls, Next(w, e).calls[|w.calls|], tenant);
      }
    }
  }

  // ---- mediation -----------------------------------------------------------------------------

  function CallsIn(es: seq<Event>): nat {
    if es == [] then 0 else (if es[|es| - 1].Calling? then 1 else 0) + CallsIn(es[..|es| - 1])
  }

  /** What the log entry of a call owes to the state the call was made in. */
  ghost predicate Mediated(w: World, e: Event, c: CallRecord)
    requires e.Calling?
  {
    var gates := Gates(e.wiring, w.broker, w.now, e.name, e.args);
    && c.wiring == e.wiring && c.name == e.name && c.args == e.args && c.decision.tool == e.name
    && (c.ran <==> c.decision.outcome != Blocked)
    && (c.ran ==>
          && c.decision.outcome == (if e.tool.Raises? then Error else Allowed)
          && c.decision.reason == (if e.tool.Raises? then ToolError else Ok))
    && (c.decision.outcome == Blocked ==>
          exists k :: 0 <= k < |gates| && FirstFailing(gates, k) && c.decision.reason == gates[k].reason)
    && (c.ran ==>
          && e.name in e.wiring.allowedTools && e.name in e.wiring.tools
          && (e.name in e.wiring.external ==>
                && GuardPasses(e.wiring.credentialGuard, w.broker, w.now)
                && Charge(e.wiring.budgetGuard, w.broker).1)
          && (e.name == "http_fetch" ==> UrlEgressAllowed(UrlOf(e.args), e.wiring.allowlist)))
  }

  lemma CallIsMediated(w: World, e: Event)
    requires e.Calling?
    ensures var w' := Next(w, e); |w'.calls| == |w.calls| + 1 && Mediated(w, e, w'.calls[|w.calls|])
  {
    var k := DispatchMediates(e.wiring, w.broker, w.now, e.name, e.args, e.tool);
    var gates := Gates(e.wiring, w.broker, w.now, e.name, e.args);
    if k == |gates| {
      assert gates[1].passes && gates[2].passes && gates[3].passes && gates[4].passes && gates[5].passes;
    }
  }

  lemma CallsAreKept(w: World, e: Event)
    ensures w.calls <= Next(w, e).calls
  {
  }

  /** Complete mediation: over any run the log has one entry per call, in order, and every entry is
      what the gates made of that call in the state it was made in. */
  lemma {:induction false} MediationOverRuns(setup: Setup, es: seq<Event>)
    ensures |Run(Start(setup), es).calls| == CallsIn(es)
    ensures forall i | 0 <= i < |es| && es[i].Calling? ::
              && CallsIn(es[..i]) < CallsIn(es)
              && Mediated(Run(Start(setup), es[..i]), es[i], Run(Start(setup), es).calls[CallsIn(es[..i])])
  {
    var w0 := Start(setup);
    if es == [] {
    } else {
      var before, last := es[..|es| - 1], es[|es| - 1];
      MediationOverRuns(setup, before);
      RunLast(w0, es);
      if last.Calling? { CallIsMediated(Run(w0, before), last); }
      forall i | 0 <= i < |es| && es[i].Calling?
        ensures CallsIn(es[..i]) < CallsIn(es)
        ensures Mediated(Run(w0, es[..i]), es[i], Run(w0, es).calls[CallsIn(es[..i])])
      {
        if i < |before| {
          assert before[..i] == es[..i] && before[i] == es[i];
          CallsAreKept(Run(w0, before), last);
        }
      }
    }
  }
}

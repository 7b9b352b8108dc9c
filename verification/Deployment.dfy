/**
 The objects of one deployment: the one scanner, the broker that registers secrets on it, and the
 registries that share both. Every method takes the objects one step of the state machine, so what
 is proved of its runs holds of the objects.
 */
module Deployment {
  import opened BaseEncodings
  import opened OutputScanner
  import opened ScannerGuarantees
  import opened Broker
  import opened Egress
  import opened EnforcingRegistry
  import opened ControlPlane

  class Deployment {
    const scanner: OutputScanner
    const broker: CredentialBroker
    var now: real
    ghost const start: World
    ghost var history: seq<Event>

    /** The state of the machine after the history of this deployment. */
    ghost function World(): World
      reads this
    {
      Run(start, history)
    }

    /** The objects are in the state that the history leads to. */
    ghost predicate Valid()
      reads this, scanner, broker
    {
      && broker.scanner == scanner
      && start == Start(MadeWith())
      && broker.Snapshot() == World().broker
      && scanner.reps == World().table
      && now == World().now
    }

    ghost function MadeWith(): Setup {
      Setup(broker.modelKey, broker.backingSecret, broker.spendCap, broker.effectCap, broker.defaultTtl, start.now)
    }

    constructor (setup: Setup)
      ensures Valid() && fresh(scanner) && fresh(broker) && history == []
      ensures MadeWith() == setup && World() == Start(setup)
    {
      var s := new OutputScanner();
      var b := new CredentialBroker(setup.modelKey, setup.backingSecret, s, setup.spendCap, setup.effectCap,
                                    setup.defaultTtl);
      scanner, broker, now := s, b, setup.now;
      start := Start(setup);
      history := [];
    }

    /** A registry for task turns, on the shared scanner and broker. */
    method TaskRegistry(credentialGuard: CredentialGuard, budgetGuard: BudgetGuard, allowedTools: seq<string>,
                        allowlist: seq<Url>, tools: map<string, Tool>) returns (registry: EnforcingTaskRegistry)
      ensures fresh(registry) && Shares(registry)
      ensures registry.Wired() ==
              Wiring(allowedTools, allowlist, tools, {"send_email", "scheduler", "http_fetch", "assistant_helper"},
                     credentialGuard, budgetGuard)
    {
      registry := new EnforcingTaskRegistry(scanner, broker, credentialGuard, budgetGuard, allowedTools,
                                            allowlist, tools);
    }

    predicate Shares(registry: EnforcingTaskRegistry) {
      registry.scanner == scanner && registry.broker == broker
    }

    method Issue(tenant: string, ttl: Option<int>, token: string) returns (cred: Credential)
      requires Valid()
      modifies this, scanner, broker
      ensures Valid() && history == old(history) + [Issuing(tenant, ttl, token)]
      ensures World() == Next(old(World()), Issuing(tenant, ttl, token))
      ensures World().issued == old(World().issued) + [cred]
    {
      RunMore(start, history, Issuing(tenant, ttl, token));
      cred := broker.IssueToolCredential(tenant, ttl, token, now);
      history := history + [Issuing(tenant, ttl, token)];
    }

    method IsValid(cred: Option<Credential>) returns (ok: bool)
      requires Valid()
      ensures ok <==> cred.Some? && ValidNow(World(), cred.value)
    {
      ok := broker.IsValidCredential(cred, now);
    }

    method Revoke(cred: Option<Credential>)
      requires Valid()
      modifies this, broker
      ensures Valid() && history == old(history) + [Revoking(cred)]
      ensures World() == Next(old(World()), Revoking(cred))
    {
      RunMore(start, history, Revoking(cred));
      broker.RevokeCredential(cred);
      history := history + [Revoking(cred)];
    }

    method UseKey(tenant: string) returns (key: Option<string>)
      requires Valid()
      modifies this, broker
      ensures Valid() && history == old(history) + [UsingKey(tenant)]
      ensures World() == Next(old(World()), UsingKey(tenant))
      ensures World().keyUses == old(World().keyUses) + [KeyUse(tenant, key)]
    {
      RunMore(start, history, UsingKey(tenant));
      key := broker.UseKey(tenant);
      history := history + [UsingKey(tenant)];
    }

    /** The clock moves. */
    method Advance(elapsed: real)
      requires Valid()
      modifies this
      ensures Valid() && history == old(history) + [Advancing(elapsed)]
      ensures World() == Next(old(World()), Advancing(elapsed))
    {
      RunMore(start, history, Advancing(elapsed));
      now := now + elapsed;
      history := history + [Advancing(elapsed)];
    }

    /** One more value is registered on the shared scanner. */
    method Teach(secret: string)
      requires Valid()
      modifies this, scanner
      ensures Valid() && history == old(history) + [Teaching(secret)]
      ensures World() == Next(old(World()), Teaching(secret))
    {
      RunMore(start, history, Teaching(secret));
      TeachingRegisters(World(), secret);
      scanner.Register([secret]);
      history := history + [Teaching(secret)];
    }

    /** A call on any registry that shares scanner and broker. */
    method Call(registry: EnforcingTaskRegistry, name: string, args: Args, tool: ToolBehaviour)
      returns (r: string)
      requires Valid() && Shares(registry)
      modifies this, broker, registry
      ensures Valid() && registry.Wired() == old(registry.Wired())
      ensures history == old(history) + [Calling(old(registry.Wired()), name, args, tool)]
      ensures World() == Next(old(World()), Calling(old(registry.Wired()), name, args, tool))
      ensures r == World().calls[|old(World().calls)|].returned
      ensures registry.decisions == old(registry.decisions) + [World().calls[|old(World().calls)|].decision]
      ensures forall v | SecretNow(old(World()), v) && SafeSecret(v) :: Hidden(v, r)
      ensures LegalRun(start, old(history)) ==> forall c | c in old(World().issued) :: Hidden(c.token, r)
    {
      ghost var before, e := World(), Calling(registry.Wired(), name, args, tool);
      RunMore(start, history, e);
      CallsHide(e);
      CallRecorded(before, e);
      r := registry.Call(name, args, now, tool);
      history := history + [e];
    }

    lemma CallsHide(e: Event)
      requires Valid() && e.Calling?
      ensures forall v | SecretNow(World(), v) && SafeSecret(v) :: CallHides(World(), e, v)
      ensures LegalRun(start, history) ==> forall c | c in World().issued :: CallHides(World(), e, c.token)
    {
      forall v | SecretNow(World(), v) && SafeSecret(v) ensures CallHides(World(), e, v) {
        EndToEnd(MadeWith(), history, e, v);
      }
      if LegalRun(start, history) {
        TokensNeverShown(MadeWith(), history, e);
      }
    }
  }

  lemma RunMore(w: World, es: seq<Event>, e: Event)
    ensures Run(w, es + [e]) == Next(Run(w, es), e)
  {
    RunConcat(w, es, [e]);
    RunOne(Run(w, es), e);
  }

  lemma TeachingRegisters(w: World, secret: string)
    ensures Next(w, Teaching(secret)).table == RegisterAll(w.table, [secret])
  {
    assert [secret][1..] == [];
    assert RegisterAll(w.table, [secret]) == RegisterAll(RegisterOne(w.table, secret), []);
  }
}

/**
 The control plane as one state machine: the broker, the one scanner it shares with every registry,
 the clock, and the calls made so far. A run is any interleaving of issues, revocations, model-key
 uses, clock advances, further registrations and calls on any registries with any tools.
 */
module ControlPlane {
  import opened Text
  import opened Redaction
  import opened BaseEncodings
  import opened OutputScanner
  import opened ScannerGuarantees
  import opened SecretSafety
  import opened Broker
  import opened Egress
  import opened EnforcingRegistry

  datatype CallRecord = CallRecord(
    wiring: Wiring, name: string, args: Args, decision: Decision, ran: bool, returned: string)

  datatype KeyUse = KeyUse(tenant: string, answer: Option<string>)

  datatype World = World(
    broker: Broker.State, table: GoodTable, now: real,
    issued: seq<Credential>, keyUses: seq<KeyUse>, calls: seq<CallRecord>)

  datatype Event =
    | Issuing(tenant: string, ttl: Option<int>, token: string)
    | Revoking(cred: Option<Credential>)
    | UsingKey(tenant: string)
    | Advancing(elapsed: real)
    | Teaching(secret: string)
    | Calling(wiring: Wiring, name: string, args: Args, tool: ToolBehaviour)

  /** What a deployment is built with, and when. */
  datatype Setup = Setup(
    modelKey: string, backingSecret: string, spendCap: Option<int>, effectCap: Option<int>, defaultTtl: int, now: real)

  /** A broker just built over a fresh scanner. */
  ghost function Start(setup: Setup): World {
    RegisterAllValid([], [setup.modelKey, setup.backingSecret]);
    World(Initial(setup.modelKey, setup.backingSecret, setup.spendCap, setup.effectCap, setup.defaultTtl),
          RegisterAll([], [setup.modelKey, setup.backingSecret]), setup.now, [], [], [])
  }

  ghost function Learn(table: GoodTable, value: string): GoodTable {
    RegisterOneValid(table, value);
    RegisterOne(table, value)
  }

  ghost function Next(w: World, e: Event): World {
    match e
    case Issuing(tenant, ttl, token) =>
      var (b, cred) := Issue(w.broker, tenant, ttl, token, w.now);
      w.(broker := b, table := Learn(w.table, token), issued := w.issued + [cred])
    case Revoking(cred) => w.(broker := Revoke(w.broker, cred))
    case UsingKey(tenant) =>
      var (b, answer) := UseModelKey(w.broker, tenant);
      w.(broker := b, keyUses := w.keyUses + [KeyUse(tenant, answer)])
    case Advancing(elapsed) => w.(now := w.now + elapsed)
    case Teaching(secret) => w.(table := Learn(w.table, secret))
    case Calling(wiring, name, args, tool) =>
      var (b, d, ran) := Dispatch(wiring, w.broker, w.now, name, args, tool);
      w.(broker := b,
         calls := w.calls + [CallRecord(wiring, name, args, d, ran, Returned(w, e))])
  }

  /** What a call gives back. */
  ghost function Returned(w: World, e: Event): string
    requires e.Calling?
  {
    Scan(w.table, RawResult(Dispatch(e.wiring, w.broker, w.now, e.name, e.args, e.tool).1, e.tool)).redacted
  }

  ghost function Run(w: World, es: seq<Event>): World
    decreases |es|
  {
    if es == [] then w else Run(Next(w, es[0]), es[1..])
  }

  /** What `token_urlsafe(24)` gives: thirty-two url-safe base64 digits. */
  predicate IsToken(token: string) {
    |token| == 32 && forall c | c in token :: Value(true, c).Some?
  }

  /** Tokens are new, and the clock does not go back. Anything may be taught. */
  ghost predicate Legal(w: World, e: Event) {
    match e
    case Issuing(_, _, token) => IsToken(token) && forall c | c in w.issued :: c.token != token
    case Advancing(elapsed) => elapsed >= 0.0
    case _ => true
  }

  ghost predicate LegalRun(w: World, es: seq<Event>)
    decreases |es|
  {
    es == [] || (Legal(w, es[0]) && LegalRun(Next(w, es[0]), es[1..]))
  }

  lemma {:induction false} RunConcat(w: World, xs: seq<Event>, ys: seq<Event>)
    ensures Run(w, xs + ys) == Run(Run(w, xs), ys)
    ensures LegalRun(w, xs + ys) <==> LegalRun(w, xs) && LegalRun(Run(w, xs), ys)
    decreases |xs|
  {
    if xs == [] {
      assert xs + ys == ys;
    } else {
      assert (xs + ys)[1..] == xs[1..] + ys;
      RunConcat(Next(w, xs[0]), xs[1..], ys);
    }
  }

  // ---- nothing secret is returned ------------------------------------------------------------

  /** Every secret of the run so far: the backing secrets and all issued tokens. */
  ghost predicate SecretNow(w: World, v: string) {
    v == w.broker.modelKey || v == w.broker.backingSecret || exists c | c in w.issued :: c.token == v
  }

  /** The scanner knows every encoding of every secret. */
  ghost predicate Knows(w: World) {
    forall v, rep | SecretNow(w, v) && IsEncoding(rep, v) :: rep in Keys(w.table)
  }

  lemma TokenIsSafe(token: string)
    requires IsToken(token)
    ensures SafeSecret(token)
  {
    PlainDigits();
    NineCharactersSuffice(token);
  }

  lemma LearnKeys(table: GoodTable, value: string)
    ensures forall rep :: rep in Keys(Learn(table, value)) <==> rep in Keys(table) || IsEncoding(rep, value)
  {
    forall rep ensures rep in Keys(Learn(table, value)) <==> rep in Keys(table) || IsEncoding(rep, value) {
      RegisterOneKeys(table, value, rep);
    }
  }

  lemma DispatchKeepsBroker(w: Wiring, b: Broker.State, now: real, name: string, args: Args, tool: ToolBehaviour)
    ensures var b' := Dispatch(w, b, now, name, args, tool).0; b' == b.(effectUses := b'.effectUses)
  {
  }

  lemma KnowsNext(w: World, e: Event)
    requires Knows(w)
    ensures Knows(Next(w, e))
  {
    match e
    case Issuing(tenant, ttl, token) =>
      LearnKeys(w.table, token);
      forall v, rep | SecretNow(Next(w, e), v) && IsEncoding(rep, v) ensures rep in Keys(Next(w, e).table) {
        assert v == token || SecretNow(w, v);
      }
    case Teaching(secret) =>
      LearnKeys(w.table, secret);
      assert forall v :: SecretNow(Next(w, e), v) <==> SecretNow(w, v);
    case Calling(wiring, name, args, tool) =>
      DispatchKeepsBroker(wiring, w.broker, w.now, name, args, tool);
      assert forall v :: SecretNow(Next(w, e), v) <==> SecretNow(w, v);
    case _ =>
      assert forall v :: SecretNow(Next(w, e), v) <==> SecretNow(w, v);
  }

  lemma {:induction false} KnowsStays(w: World, es: seq<Event>)
    requires Knows(w)
    ensures Knows(Run(w, es))
    decreases |es|
  {
    if es == [] {
    } else {
      KnowsNext(w, es[0]);
      KnowsStays(Next(w, es[0]), es[1..]);
    }
  }

  /** In every run, legal or not, the scanner knows all encodings of the backing secrets and of all
      tokens issued so far. */
  lemma KnowsAlways(setup: Setup, es: seq<Event>)
    ensures Knows(Run(Start(setup), es))
  {
    var w := Start(setup);
    var values := [setup.modelKey, setup.backingSecret];
    assert values[0] in values && values[1] in values;
    forall v, rep | SecretNow(w, v) && IsEncoding(rep, v) ensures rep in Keys(w.table) {
      assert v in values;
      RegisteredExactly([], values, rep);
    }
    KnowsStays(w, es);
  }

  /** No encoding of `v` is in what the call `e` returns when it is made in `w`. */
  ghost predicate CallHides(w: World, e: Event, v: string)
    requires e.Calling?
  {
    Hidden(v, Returned(w, e))
  }

  /** What a call leaves behind: a record of its dispatch and of the scanned result. */
  lemma CallRecorded(w: World, e: Event)
    requires e.Calling?
    ensures var (b, d, ran) := Dispatch(e.wiring, w.broker, w.now, e.name, e.args, e.tool);
            && Next(w, e) == w.(broker := b, calls := Next(w, e).calls)
            && Next(w, e).calls == w.calls + [CallRecord(e.wiring, e.name, e.args, d, ran, Returned(w, e))]
  {
  }

  lemma CallReturns(w: World, e: Event) returns (raw: string)
    requires e.Calling?
    ensures Returned(w, e) == Scan(w.table, raw).redacted
  {
    raw := RawResult(Dispatch(e.wiring, w.broker, w.now, e.name, e.args, e.tool).1, e.tool);
  }

  lemma KnownIsHidden(w: World, e: Event, v: string)
    requires Knows(w) && e.Calling? && SecretNow(w, v) && SafeSecret(v)
    ensures CallHides(w, e, v)
  {
    var raw := CallReturns(w, e);
    SafeIsHidden(w.table, v, raw);
  }

  lemma SafeIsHidden(table: GoodTable, v: string, text: string)
    requires SafeSecret(v) && forall rep | IsEncoding(rep, v) :: rep in Keys(table)
    ensures Hidden(v, Scan(table, text).redacted)
  {
    ScanComplete(table, text);
  }

  /** End to end: after any run, whatever a call returns contains no encoding of any safe secret of
      that moment: model key, backing secret or issued token. Nothing is asked of the other secrets,
      of what else was taught, or of the run. */
  lemma EndToEnd(setup: Setup, es: seq<Event>, e: Event, v: string)
    requires e.Calling?
    ensures var w := Run(Start(setup), es);
            SecretNow(w, v) && SafeSecret(v) ==> CallHides(w, e, v)
  {
    KnowsAlways(setup, es);
    var w := Run(Start(setup), es);
    if SecretNow(w, v) && SafeSecret(v) { KnownIsHidden(w, e, v); }
  }

  ghost predicate OnlyTokensIssued(w: World) {
    forall c | c in w.issued :: IsToken(c.token)
  }

  lemma {:induction false} OnlyTokensEver(w: World, es: seq<Event>)
    requires OnlyTokensIssued(w) && LegalRun(w, es)
    ensures OnlyTokensIssued(Run(w, es))
    decreases |es|
  {
    if es == [] {
    } else {
      OnlyTokensEver(Next(w, es[0]), es[1..]);
    }
  }

  /** In no legal run does a call return an encoding of a token issued so far, whatever the model key,
      the backing secret and everything else that was taught are. */
  lemma TokensNeverShown(setup: Setup, es: seq<Event>, e: Event)
    requires LegalRun(Start(setup), es) && e.Calling?
    ensures var w := Run(Start(setup), es);
            forall c | c in w.issued :: CallHides(w, e, c.token)
  {
    var w0 := Start(setup);
    OnlyTokensEver(w0, es);
    forall c | c in Run(w0, es).issued ensures CallHides(Run(w0, es), e, c.token) {
      TokenIsSafe(c.token);
      EndToEnd(setup, es, e, c.token);
    }
  }

  // ---- exactly when --------------------------------------------------------------------------

  /** Where the scanner shows a string, a call can return it. */
  lemma EchoLeaks(w: World, v: string, rep: string, text: string) returns (e: Event)
    requires IsEncoding(rep, v) && Occurs(rep, Scan(w.table, text).redacted)
    ensures e.Calling? && !CallHides(w, e, v)
  {
    e := EchoCall(w, text);
  }

  ghost predicate TeachesSafely(es: seq<Event>) {
    forall e | e in es && e.Teaching? :: SafeSecret(e.secret)
  }

  /** No call after any run returns an encoding of the model key, beside any backing secret. */
  ghost predicate KeyNeverShown(setup: Setup) {
    forall backing: string, es: seq<Event>, e: Event | e.Calling? ::
      CallHides(Run(Start(setup.(backingSecret := backing)), es), e, setup.modelKey)
  }

  /** The same for legal runs in which everything but the model key is safe. */
  ghost predicate KeyNeverShownAmongSafe(setup: Setup) {
    forall backing: string, es: seq<Event>, e: Event |
      && e.Calling? && SafeSecret(backing) && TeachesSafely(es)
      && LegalRun(Start(setup.(backingSecret := backing)), es) ::
      CallHides(Run(Start(setup.(backingSecret := backing)), es), e, setup.modelKey)
  }

  lemma SafeBackingHidden(setup: Setup, es: seq<Event>, e: Event)
    requires e.Calling?
    ensures var w := Run(Start(setup), es);
            && (SafeSecret(setup.modelKey) ==> CallHides(w, e, setup.modelKey))
            && (SafeSecret(setup.backingSecret) ==> CallHides(w, e, setup.backingSecret))
  {
    BackingStays(Start(setup), es);
    EndToEnd(setup, es, e, setup.modelKey);
    EndToEnd(setup, es, e, setup.backingSecret);
  }

  /** With its companion for a backing secret an unsafe model key leaks at once. */
  lemma UnsafeKeyLeaks(setup: Setup)
    returns (backing: string, es: seq<Event>, e: Event)
    requires !SafeSecret(setup.modelKey)
    ensures var w0 := Start(setup.(backingSecret := backing));
            && e.Calling? && SafeSecret(backing) && TeachesSafely(es) && LegalRun(w0, es)
            && !CallHides(Run(w0, es), e, setup.modelKey)
  {
    var rep, text := UnsafeSecretSurvives(setup.modelKey);
    backing, es := Companion(|setup.modelKey|), [];
    e := EchoLeaks(Start(setup.(backingSecret := backing)), setup.modelKey, rep, text);
  }

  /** The model key is hidden from every call after every run, beside any backing secret and whatever
      else is taught, exactly when it is a safe secret; and that is also what hiding it among safe
      secrets takes. There is no condition on the key. */
  lemma ModelKeySafetyIsExact(setup: Setup)
    ensures SafeSecret(setup.modelKey) <==> KeyNeverShown(setup)
    ensures SafeSecret(setup.modelKey) <==> KeyNeverShownAmongSafe(setup)
  {
    if SafeSecret(setup.modelKey) {
      forall backing: string, es: seq<Event>, e: Event | e.Calling?
        ensures CallHides(Run(Start(setup.(backingSecret := backing)), es), e, setup.modelKey)
      {
        SafeBackingHidden(setup.(backingSecret := backing), es, e);
      }
    } else {
      var backing, es, e := UnsafeKeyLeaks(setup);
    }
  }

  /** The model key and the backing secret are the same ones all along. */
  lemma {:induction false} BackingStays(w: World, es: seq<Event>)
    ensures Run(w, es).broker.modelKey == w.broker.modelKey
    ensures Run(w, es).broker.backingSecret == w.broker.backingSecret
    decreases |es|
  {
    if es == [] {
    } else {
      var e := es[0];
      if e.Calling? { DispatchKeepsBroker(e.wiring, w.broker, w.now, e.name, e.args, e.tool); }
      BackingStays(Next(w, e), es[1..]);
    }
  }

  ghost predicate BackingNeverShown(setup: Setup) {
    forall key: string, es: seq<Event>, e: Event | e.Calling? ::
      CallHides(Run(Start(setup.(modelKey := key)), es), e, setup.backingSecret)
  }

  ghost predicate BackingNeverShownAmongSafe(setup: Setup) {
    forall key: string, es: seq<Event>, e: Event |
      && e.Calling? && SafeSecret(key) && TeachesSafely(es)
      && LegalRun(Start(setup.(modelKey := key)), es) ::
      CallHides(Run(Start(setup.(modelKey := key)), es), e, setup.backingSecret)
  }

  /** The same for the backing secret, beside any model key. */
  lemma BackingSafetyIsExact(setup: Setup)
    ensures SafeSecret(setup.backingSecret) <==> BackingNeverShown(setup)
    ensures SafeSecret(setup.backingSecret) <==>
            BackingNeverShownAmongSafe(setup)
  {
    if SafeSecret(setup.backingSecret) {
      forall key: string, es: seq<Event>, e: Event | e.Calling?
        ensures CallHides(Run(Start(setup.(modelKey := key)), es), e, setup.backingSecret)
      {
        SafeBackingHidden(setup.(modelKey := key), es, e);
      }
    } else {
      var key, es, e := UnsafeBackingLeaks(setup);
    }
  }

  lemma RunOne(w: World, e: Event)
    ensures Run(w, [e]) == Next(w, e)
    ensures LegalRun(w, [e]) <==> Legal(w, e)
  {
    assert [e][1..] == [];
    assert Run(Next(w, e), []) == Next(w, e);
  }

  /** Beside no model key an unsafe backing secret leaks once its companion is registered. */
  lemma UnsafeBackingLeaks(setup: Setup) returns (key: string, es: seq<Event>, e: Event)
    requires !SafeSecret(setup.backingSecret)
    ensures var w0 := Start(setup.(modelKey := key));
            && e.Calling? && SafeSecret(key) && TeachesSafely(es) && LegalRun(w0, es)
            && !CallHides(Run(w0, es), e, setup.backingSecret)
  {
    var rep, text := UnsafeSecretSurvives(setup.backingSecret);
    var z := Companion(|setup.backingSecret|);
    key := "";
    EmptyIsSafe();
    TableAfter(setup, z);
    es, e := LeaksOnceTaught(Start(setup.(modelKey := "")),
                             z, setup.backingSecret, rep, text);
  }

  lemma TableAfter(setup: Setup, z: string)
    ensures Next(Start(setup.(modelKey := "")), Teaching(z)).table ==
            RegisterAll([], [setup.backingSecret, z])
  {
    TaughtTable(Start(setup.(modelKey := "")), z);
    EmptyFirst(setup.backingSecret);
    TwoRegistrations(setup.backingSecret, z);
  }

  lemma LeaksOnceTaught(w: World, z: string, v: string, rep: string, text: string)
    returns (es: seq<Event>, e: Event)
    requires IsEncoding(rep, v) && Occurs(rep, Scan(Next(w, Teaching(z)).table, text).redacted)
    ensures LegalRun(w, es) && e.Calling? && !CallHides(Run(w, es), e, v)
    ensures SafeSecret(z) ==> TeachesSafely(es)
    ensures SecretNow(w, v) ==> SecretNow(Run(w, es), v)
  {
    es := [Teaching(z)];
    RunOne(w, Teaching(z));
    e := EchoLeaks(Next(w, Teaching(z)), v, rep, text);
    TeachingOnly(w, z, v);
  }

  lemma TeachingOnly(w: World, z: string, v: string)
    ensures Legal(w, Teaching(z)) && (SecretNow(w, v) ==> SecretNow(Next(w, Teaching(z)), v))
    ensures SafeSecret(z) ==> TeachesSafely([Teaching(z)])
  {
  }

  /** No call in any legal run from `w0` returns an encoding of a secret of that moment. */
  ghost predicate NothingLeaks(w0: World) {
    forall es: seq<Event>, e: Event, v: string |
      LegalRun(w0, es) && e.Calling? && SecretNow(Run(w0, es), v) :: CallHides(Run(w0, es), e, v)
  }

  /** For one fixed pair of secrets, whatever they are: no run leaks anything exactly when every
      encoding of the two has a safe encoding of one of them inside it. */
  lemma NothingLeaksExactly(setup: Setup)
    ensures NothingLeaks(Start(setup)) <==>
            AllGuarded(RegisterAll([], [setup.modelKey, setup.backingSecret]))
  {
    if AllGuarded(RegisterAll([], [setup.modelKey, setup.backingSecret])) {
      GuardedNeverLeaks(setup);
    } else {
      PairRegistered(setup.modelKey, setup.backingSecret);
      UnguardedLeaks(Start(setup), setup.modelKey, setup.backingSecret);
    }
  }

  lemma UnguardedLeaks(w: World, modelKey: string, backingSecret: string)
    requires KnowsPair(w.table, modelKey, backingSecret) && !AllGuarded(w.table)
    requires SecretNow(w, modelKey) && SecretNow(w, backingSecret)
    ensures !NothingLeaks(w)
  {
    var v, z, rep, text := UnguardedPairSurvives(w.table, modelKey, backingSecret);
    NotOnceTaught(w, z, v, rep, text);
  }

  lemma NotOnceTaught(w: World, z: string, v: string, rep: string, text: string)
    requires SecretNow(w, v) && IsEncoding(rep, v) && ValidTable(RegisterOne(w.table, z))
    requires Occurs(rep, Scan(RegisterOne(w.table, z), text).redacted)
    ensures !NothingLeaks(w)
  {
    TaughtTable(w, z);
    var es, e := LeaksOnceTaught(w, z, v, rep, text);
    LeakFound(w, es, e, v);
  }

  lemma TaughtTable(w: World, z: string)
    ensures Next(w, Teaching(z)).table == RegisterOne(w.table, z)
  {
  }

  lemma LeakFound(w: World, es: seq<Event>, e: Event, v: string)
    requires LegalRun(w, es) && e.Calling? && SecretNow(Run(w, es), v) && !CallHides(Run(w, es), e, v)
    ensures !NothingLeaks(w)
  {
  }

  lemma {:induction false} KeysStay(w: World, es: seq<Event>)
    ensures forall k | k in Keys(w.table) :: k in Keys(Run(w, es).table)
    decreases |es|
  {
    if es == [] {
    } else {
      if es[0].Issuing? { LearnKeys(w.table, es[0].token); }
      if es[0].Teaching? { LearnKeys(w.table, es[0].secret); }
      KeysStay(Next(w, es[0]), es[1..]);
    }
  }

  lemma GuardedCallHidden(table: Table, w: World, modelKey: string, backingSecret: string, e: Event)
    requires KnowsPair(table, modelKey, backingSecret) && AllGuarded(table) && e.Calling?
    requires forall k | k in Keys(table) :: k in Keys(w.table)
    ensures CallHides(w, e, modelKey) && CallHides(w, e, backingSecret)
  {
    var raw := CallReturns(w, e);
    GuardedPairHidden(table, w.table, modelKey, backingSecret, raw);
  }

  lemma GuardedNeverLeaks(setup: Setup)
    requires AllGuarded(RegisterAll([], [setup.modelKey, setup.backingSecret]))
    ensures NothingLeaks(Start(setup))
  {
    var w0 := Start(setup);
    PairRegistered(setup.modelKey, setup.backingSecret);
    forall es: seq<Event>, e: Event, v: string | LegalRun(w0, es) && e.Calling? && SecretNow(Run(w0, es), v)
      ensures CallHides(Run(w0, es), e, v)
    {
      var w := Run(w0, es);
      BackingStays(w0, es);
      if v == setup.modelKey || v == setup.backingSecret {
        KeysStay(w0, es);
        GuardedCallHidden(w0.table, w, setup.modelKey, setup.backingSecret, e);
      } else {
        TokensNeverShown(setup, es, e);
      }
    }
  }

  /** A permitted tool that returns a text: the call returns the scan of that text. */
  lemma EchoCall(w: World, text: string) returns (e: Event)
    ensures e.Calling? && Next(w, e).calls == w.calls + [Next(w, e).calls[|w.calls|]]
    ensures Returned(w, e) == Scan(w.table, text).redacted
    ensures Next(w, e).broker == w.broker && Next(w, e).issued == w.issued
  {
    var wiring := Wiring(["echo"], [], map["echo" := Tool("echo", 0)], {}, NoGuard, NoBudget);
    e := Calling(wiring, "echo", Falsy, Returns(text));
    assert "echo" in ["echo"];
  }

  lemma CleanStays(table: GoodTable, text: string)
    requires forall rep | rep in Keys(table) :: !Occurs(rep, text)
    ensures Scan(table, text).redacted == text
  {
    DetectionsEmpty(table, text);
  }

  /** A permitted result without any registered encoding is returned as the tool gave it. */
  lemma CleanResultsUnchanged(w: World, e: Event)
    requires e.Calling? && e.tool.Returns?
    requires forall rep | rep in Keys(w.table) :: !Occurs(rep, e.tool.text)
    ensures Next(w, e).calls[|w.calls|].decision.outcome == Allowed ==> Returned(w, e) == e.tool.text
  {
    CallRecorded(w, e);
    CleanStays(w.table, e.tool.text);
  }

  lemma RefusedReturns(w: World, e: Event)
    requires e.Calling? && Next(w, e).calls[|w.calls|].decision.outcome != Allowed
    ensures Returned(w, e) == Scan(w.table, GENERIC_DENIAL).redacted
  {
    CallRecorded(w, e);
  }

  /** Whatever the reason, the tool and the wiring, every denial or failure at one scanner state
      returns one and the same text, which names no tool, no guard and no reason. */
  lemma DenialsTellNothing(v: World, d: Event, w: World, e: Event, text: string)
    requires d.Calling? && e.Calling? && v.table == w.table
    requires Next(v, d).calls[|v.calls|].decision.outcome != Allowed
    requires Next(w, e).calls[|w.calls|].decision.outcome != Allowed
    requires text ==
             "ERROR: action blocked by runtime policy. Continue with the task using permitted, in-policy steps."
    ensures Returned(v, d) == Returned(w, e) == Scan(w.table, text).redacted
    ensures (forall rep | rep in Keys(w.table) :: !Occurs(rep, text)) ==> Returned(w, e) == text
  {
    RefusedReturns(v, d);
    RefusedReturns(w, e);
    if forall rep | rep in Keys(w.table) :: !Occurs(rep, text) { CleanStays(w.table, text); }
  }

  // ---- credentials ---------------------------------------------------------------------------

  ghost predicate DistinctTokens(w: World) {
    forall i, j | 0 <= i < j < |w.issued| :: w.issued[i].token != w.issued[j].token
  }

  predicate ValidNow(w: World, c: Credential) {
    IsValid(w.broker, Some(c), w.now)
  }

  /** One event brings no dead credential back to life. */
  lemma DeathStep(w: World, e: Event, c: Credential)
    requires Legal(w, e) && c in w.issued && !ValidNow(w, c)
    ensures c in Next(w, e).issued && !ValidNow(Next(w, e), c)
  {
    match e
    case Calling(wiring, name, args, tool) => DispatchKeepsBroker(wiring, w.broker, w.now, name, args, tool);
    case _ =>
  }

  /** Superseded, revoked or expired: an issued credential found invalid is invalid ever after. */
  lemma {:induction false} DeathIsPermanent(w: World, es: seq<Event>, c: Credential)
    requires LegalRun(w, es) && c in w.issued && !ValidNow(w, c)
    ensures !ValidNow(Run(w, es), c)
    decreases |es|
  {
    if es == [] {
    } else {
      DeathStep(w, es[0], c);
      DeathIsPermanent(Next(w, es[0]), es[1..], c);
    }
  }

  lemma {:induction false} TokensStayDistinct(w: World, es: seq<Event>)
    requires DistinctTokens(w) && LegalRun(w, es)
    ensures DistinctTokens(Run(w, es))
    decreases |es|
  {
    if es == [] {
    } else {
      TokensStayDistinct(Next(w, es[0]), es[1..]);
    }
  }

  ghost predicate OneValidEach(w: World) {
    forall c, d | c in w.issued && d in w.issued && c.tenant == d.tenant && ValidNow(w, c) && ValidNow(w, d) :: c == d
  }

  lemma DistinctTokensOneValid(w: World)
    requires DistinctTokens(w)
    ensures OneValidEach(w)
  {
    forall c, d | c in w.issued && d in w.issued && c.tenant == d.tenant && ValidNow(w, c) && ValidNow(w, d)
      ensures c == d
    {
      var i :| 0 <= i < |w.issued| && w.issued[i] == c;
      var j :| 0 <= j < |w.issued| && w.issued[j] == d;
    }
  }

  /** In every reachable state a tenant has at most one valid issued credential. */
  lemma AtMostOneValid(setup: Setup, es: seq<Event>)
    requires LegalRun(Start(setup), es)
    ensures OneValidEach(Run(Start(setup), es))
  {
    TokensStayDistinct(Start(setup), es);
    DistinctTokensOneValid(Run(Start(setup), es));
  }

  /** The token last issued to a tenant in a run. */
  function LastToken(es: seq<Event>, tenant: string): Option<string> {
    if es == [] then None
    else
      var last := es[|es| - 1];
      if last.Issuing? && last.tenant == tenant then Some(last.token) else LastToken(es[..|es| - 1], tenant)
  }

  predicate RevokedIn(es: seq<Event>, token: string) {
    exists e | e in es :: e.Revoking? && e.cred.Some? && e.cred.value.token == token
  }

  function Elapsed(es: seq<Event>): real {
    if es == [] then 0.0
    else (if es[|es| - 1].Advancing? then es[|es| - 1].elapsed else 0.0) + Elapsed(es[..|es| - 1])
  }

  lemma RunLast(w: World, es: seq<Event>)
    requires es != []
    ensures Run(w, es) == Next(Run(w, es[..|es| - 1]), es[|es| - 1])
  {
    var last := [es[|es| - 1]];
    assert es == es[..|es| - 1] + last;
    RunConcat(w, es[..|es| - 1], last);
    assert last[1..] == [];
  }

  /** The broker's tables say what the run did: who was issued what last, and what was revoked. */
  ghost predicate TablesTell(w: World, es: seq<Event>) {
    && (forall t :: LastToken(es, t) == if t in w.broker.active then Some(w.broker.active[t]) else None)
    && (forall token :: token in w.broker.revoked <==> RevokedIn(es, token))
  }

  lemma TablesStep(v: World, before: seq<Event>, e: Event)
    requires TablesTell(v, before)
    ensures TablesTell(Next(v, e), before + [e])
    ensures Elapsed(before + [e]) == Elapsed(before) + (if e.Advancing? then e.elapsed else 0.0)
  {
    var es := before + [e];
    assert es[..|es| - 1] == before;
    if e.Calling? { DispatchKeepsBroker(e.wiring, v.broker, v.now, e.name, e.args, e.tool); }
    forall token ensures token in Next(v, e).broker.revoked <==> RevokedIn(es, token) {
      assert forall x :: x in es <==> x in before || x == e;
    }
  }

  lemma {:induction false} TablesAreHistory(w0: World, es: seq<Event>)
    requires w0.broker.active == map[] && w0.broker.revoked == {}
    ensures TablesTell(Run(w0, es), es) && Run(w0, es).now == w0.now + Elapsed(es)
  {
    if es == [] {
    } else {
      var before, last := es[..|es| - 1], es[|es| - 1];
      assert es == before + [last];
      TablesAreHistory(w0, before);
      RunLast(w0, es);
      TablesStep(Run(w0, before), before, last);
    }
  }

  /** Validity is a matter of the credential's history alone: the last one issued to its tenant,
      never revoked, and not older than its time to live. Spending, budgets and calls do not enter. */
  lemma ValidityIsHistory(setup: Setup, es: seq<Event>, c: Credential)
    ensures ValidNow(Run(Start(setup), es), c) <==>
            && LastToken(es, c.tenant) == Some(c.token)
            && !RevokedIn(es, c.token)
            && setup.now + Elapsed(es) - c.issuedAt < c.ttl as real
  {
    TablesAreHistory(Start(setup), es);
  }

  /** The part of a run that concerns the life of credentials. */
  function Lifecycle(es: seq<Event>): seq<Event> {
    if es == [] then []
    else (if es[0].Issuing? || es[0].Revoking? || es[0].Advancing? then [es[0]] else []) + Lifecycle(es[1..])
  }

  ghost predicate SameCredentials(v: World, w: World) {
    && v.broker.active == w.broker.active && v.broker.revoked == w.broker.revoked
    && v.broker.defaultTtl == w.broker.defaultTtl && v.now == w.now && v.issued == w.issued
  }

  lemma {:induction false} SpendingIsSeparate(v: World, w: World, es: seq<Event>)
    requires SameCredentials(v, w)
    ensures SameCredentials(Run(v, es), Run(w, Lifecycle(es)))
    decreases |es|
  {
    if es == [] {
    } else {
      var e, rest := es[0], es[1..];
      if e.Issuing? || e.Revoking? || e.Advancing? {
        SpendingIsSeparate(Next(v, e), Next(w, e), rest);
        assert ([e] + Lifecycle(rest))[1..] == Lifecycle(rest);
      } else {
        if e.Calling? { DispatchKeepsBroker(e.wiring, v.broker, v.now, e.name, e.args, e.tool); }
        SpendingIsSeparate(Next(v, e), w, rest);
        assert Lifecycle(es) == Lifecycle(rest);
      }
    }
  }

  /** Taking every model-key use, call and registration out of a run leaves the validity of every
      credential, forged ones included, as it was. */
  lemma ValidityIgnoresSpending(w: World, es: seq<Event>, c: Credential)
    ensures ValidNow(Run(w, es), c) <==> ValidNow(Run(w, Lifecycle(es)), c)
  {
    SpendingIsSeparate(w, w, es);
  }
}

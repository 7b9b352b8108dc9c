/**
 The credential broker. `State` and the functions on it say what each method does; the class is the
 object whose fields they update. Fresh tokens and clock readings are handed in.
 */
module Broker {
  import opened BaseEncodings
  import opened OutputScanner

  datatype Credential = Credential(token: string, tenant: string, ttl: int, issuedAt: real)

  datatype State = State(
    modelKey: string, backingSecret: string,
    spendCap: Option<int>, effectCap: Option<int>, defaultTtl: int,
    active: map<string, string>, revoked: set<string>,
    keyUses: map<string, int>, effectUses: map<string, int>)

  function Initial(modelKey: string, backingSecret: string, spendCap: Option<int>, effectCap: Option<int>,
                   defaultTtl: int): State {
    State(modelKey, backingSecret, spendCap, effectCap, defaultTtl, map[], {}, map[], map[])
  }

  function Count(uses: map<string, int>, tenant: string): int {
    if tenant in uses then uses[tenant] else 0
  }

  /** Mints a credential over `token`, which supersedes the tenant's earlier one. */
  function Issue(s: State, tenant: string, ttl: Option<int>, token: string, now: real): (State, Credential) {
    (s.(active := s.active[tenant := token]),
     Credential(token, tenant, if ttl.None? then s.defaultTtl else ttl.value, now))
  }

  /** `None` stands for an argument that is not a credential. */
  predicate IsValid(s: State, cred: Option<Credential>, now: real) {
    && cred.Some?
    && cred.value.token !in s.revoked
    && cred.value.tenant in s.active && s.active[cred.value.tenant] == cred.value.token
    && now - cred.value.issuedAt < cred.value.ttl as real
  }

  function Revoke(s: State, cred: Option<Credential>): State {
    if cred.None? then s else s.(revoked := s.revoked + {cred.value.token})
  }

  /** The model key, or `None` for the exception that the cap raises. */
  function UseModelKey(s: State, tenant: string): (State, Option<string>) {
    if s.spendCap.None? then (s, Some(s.modelKey))
    else if Count(s.keyUses, tenant) >= s.spendCap.value then (s, None)
    else (s.(keyUses := s.keyUses[tenant := Count(s.keyUses, tenant) + 1]), Some(s.modelKey))
  }

  function AllowEffect(s: State, tenant: string): (State, bool) {
    if s.effectCap.None? then (s, true)
    else if Count(s.effectUses, tenant) >= s.effectCap.value then (s, false)
    else (s.(effectUses := s.effectUses[tenant := Count(s.effectUses, tenant) + 1]), true)
  }

  class CredentialBroker {
    const modelKey: string
    const backingSecret: string
    const scanner: OutputScanner?
    const spendCap: Option<int>
    const effectCap: Option<int>
    const defaultTtl: int

    var active: map<string, string>
    var revoked: set<string>
    var modelKeyUses: map<string, int>
    var effectUses: map<string, int>

    ghost predicate Valid()
      reads this, scanner
    {
      scanner != null ==> scanner.Valid()
    }

    ghost function Snapshot(): State
      reads this
    {
      State(modelKey, backingSecret, spendCap, effectCap, defaultTtl, active, revoked, modelKeyUses, effectUses)
    }

    /** The only path that teaches the scanner the backing secrets. */
    constructor (modelKey: string, backingSecret: string, scanner: OutputScanner?,
                 spendCap: Option<int>, effectCap: Option<int>, defaultTtl: int)
      requires scanner != null ==> scanner.Valid()
      modifies if scanner == null then {} else {scanner}
      ensures Valid() && this.scanner == scanner
      ensures Snapshot() == Initial(modelKey, backingSecret, spendCap, effectCap, defaultTtl)
      ensures scanner != null ==> scanner.reps == RegisterAll(old(scanner.reps), [modelKey, backingSecret])
    {
      this.modelKey, this.backingSecret, this.scanner := modelKey, backingSecret, scanner;
      this.spendCap, this.effectCap, this.defaultTtl := spendCap, effectCap, defaultTtl;
      active, revoked, modelKeyUses, effectUses := map[], {}, map[], map[];
      new;
      if scanner != null {
        scanner.Register([modelKey, backingSecret]);
      }
    }

    method IssueToolCredential(tenant: string, ttl: Option<int>, token: string, now: real)
      returns (cred: Credential)
      requires Valid()
      modifies this, if scanner == null then {} else {scanner}
      ensures Valid()
      ensures (Snapshot(), cred) == Issue(old(Snapshot()), tenant, ttl, token, now)
      ensures scanner != null ==> scanner.reps == RegisterOne(old(scanner.reps), token)
    {
      cred := Credential(token, tenant, if ttl.None? then defaultTtl else ttl.value, now);
      active := active[tenant := token];
      if scanner != null {
        scanner.Register([token]);
        assert [token][1..] == [];
      }
    }

    method IsValidCredential(cred: Option<Credential>, now: real) returns (ok: bool)
      ensures ok == IsValid(Snapshot(), cred, now)
    {
      if cred.None? {
        return false;
      }
      if cred.value.token in revoked {
        return false;
      }
      if cred.value.tenant !in active || active[cred.value.tenant] != cred.value.token {
        return false;
      }
      var elapsed := now - cred.value.issuedAt;
      ok := elapsed < cred.value.ttl as real;
    }

    method RevokeCredential(cred: Option<Credential>)
      modifies this
      ensures Snapshot() == Revoke(old(Snapshot()), cred)
    {
      if cred.Some? {
        revoked := revoked + {cred.value.token};
      }
    }

    method UseKey(tenant: string) returns (key: Option<string>)
      modifies this
      ensures (Snapshot(), key) == UseModelKey(old(Snapshot()), tenant)
    {
      if spendCap.Some? {
        var used := Count(modelKeyUses, tenant);
        if used >= spendCap.value {
          return None;
        }
        modelKeyUses := modelKeyUses[tenant := used + 1];
      }
      key := Some(modelKey);
    }

    method AllowExternalEffect(tenant: string) returns (ok: bool)
      modifies this
      ensures (Snapshot(), ok) == AllowEffect(old(Snapshot()), tenant)
    {
      if effectCap.None? {
        return true;
      }
      var used := Count(effectUses, tenant);
      if used >= effectCap.value {
        return false;
      }
      effectUses := effectUses[tenant := used + 1];
      ok := true;
    }
  }

  // ---- one step at a time --------------------------------------------------------------------

  /** A credential is good from its issue for exactly its time to live, the default one if none was
      asked for, unless its token has been revoked; and it ends every other credential of its tenant
      and of no one else. */
  lemma IssueExactly(s: State, tenant: string, ttl: Option<int>, token: string, now: real, later: real,
                     other: Credential)
    ensures var (s', cred) := Issue(s, tenant, ttl, token, now);
            && cred.tenant == tenant && cred.token == token && cred.issuedAt == now
            && cred.ttl == (if ttl.Some? then ttl.value else s.defaultTtl)
            && (IsValid(s', Some(cred), later) <==>
                  token !in s.revoked && later - now < (if ttl.Some? then ttl.value else s.defaultTtl) as real)
            && (other.tenant == tenant && other.token != token ==> !IsValid(s', Some(other), later))
            && (other.tenant != tenant ==> (IsValid(s', Some(other), later) <==> IsValid(s, Some(other), later)))
  {
  }

  /** A refused use of the key or of the effect budget changes nothing at all, and a granted one
      changes only the count of its own ledger and its own tenant. */
  lemma SpendingIsLocal(s: State, tenant: string, other: string)
    ensures var (s', key) := UseModelKey(s, tenant);
            && (key.None? ==> s' == s)
            && s' == s.(keyUses := s'.keyUses)
            && (other != tenant ==> Count(s'.keyUses, other) == Count(s.keyUses, other))
    ensures var (s', ok) := AllowEffect(s, tenant);
            && (!ok ==> s' == s)
            && s' == s.(effectUses := s'.effectUses)
            && (other != tenant ==> Count(s'.effectUses, other) == Count(s.effectUses, other))
  {
  }
}

/** Isolation between tenants over interleaved runs, and refinement of one private store a tenant. */
module StoreIsolation {
  import opened Sequences
  import opened Text
  import opened Redaction
  import opened BaseEncodings
  import opened OutputScanner
  import opened ScannerGuarantees
  import opened ScopedStore

  /** The records filed under a tenant, by key prefix, in store order. */
  function Slice(records: seq<Record>, a: string): seq<Record> {
    if records == [] then []
    else (if TenantOf(records[0].key) == a then [records[0]] else []) + Slice(records[1..], a)
  }

  /** The namespace a tenant's own writes land in: what precedes its first colon, if it has one. */
  function Reach(b: string): string {
    TenantOf(b + ":")
  }

  // ---- a tenant's operation sees and changes its slice only ----------------------------------

  lemma SliceCons(r: Record, rest: seq<Record>, a: string)
    ensures Slice([r] + rest, a) == (if TenantOf(r.key) == a then [r] else []) + Slice(rest, a)
  {
    assert ([r] + rest)[1..] == rest;
  }

  lemma GetCons(r: Record, rest: seq<Record>, key: string)
    ensures RawGet([r] + rest, key) == if r.key == key then Some(r) else RawGet(rest, key)
  {
    assert ([r] + rest)[1..] == rest;
  }

  lemma {:induction false} SliceGet(records: seq<Record>, a: string, key: string)
    requires TenantOf(key) == a
    ensures RawGet(Slice(records, a), key) == RawGet(records, key)
  {
    if records == [] {
    } else {
      var first, rest := records[0], records[1..];
      SliceGet(rest, a, key);
      if TenantOf(first.key) == a {
        GetCons(first, Slice(rest, a), key);
      } else {
        assert Slice(records, a) == Slice(rest, a);
      }
    }
  }

  lemma {:induction false} SlicePut(records: seq<Record>, a: string, r: Record)
    ensures Slice(RawPut(records, r), a) ==
            if TenantOf(r.key) == a then RawPut(Slice(records, a), r) else Slice(records, a)
  {
    if records == [] {
      SliceCons(r, [], a);
      assert [r] + [] == [r];
    } else {
      var first, rest := records[0], records[1..];
      assert records == [first] + rest;
      SliceCons(first, rest, a);
      SliceCons(r, rest, a);
      SlicePut(rest, a, r);
      SliceCons(first, RawPut(rest, r), a);
      if TenantOf(first.key) == a {
        assert Slice(records, a)[0] == first && Slice(records, a)[1..] == Slice(rest, a);
      } else {
        assert Slice(records, a) == Slice(rest, a);
      }
    }
  }

  lemma {:induction false} SliceDelete(records: seq<Record>, a: string, key: string)
    ensures Slice(RawDelete(records, key), a) ==
            if TenantOf(key) == a then RawDelete(Slice(records, a), key) else Slice(records, a)
  {
    if records == [] {
    } else {
      var first, rest := records[0], records[1..];
      assert records == [first] + rest;
      SliceCons(first, rest, a);
      SliceDelete(rest, a, key);
      SliceCons(first, RawDelete(rest, key), a);
      if TenantOf(first.key) == a {
        assert Slice(records, a)[0] == first && Slice(records, a)[1..] == Slice(rest, a);
      } else {
        assert Slice(records, a) == Slice(rest, a);
      }
    }
  }

  lemma {:induction false} ScopedOwnedConcat(scanner: Scanner, a: string, x: seq<Record>, y: seq<Record>)
    ensures ScopedOwned(scanner, a, x + y) == ScopedOwned(scanner, a, x) + ScopedOwned(scanner, a, y)
  {
    if x == [] {
      assert x + y == y;
    } else {
      ConsConcat(x, y);
      ScopedOwnedConcat(scanner, a, x[1..], y);
      Associate(ScopedIfOwned(scanner, a, x[0]), ScopedOwned(scanner, a, x[1..]), ScopedOwned(scanner, a, y));
    }
  }

  lemma {:induction false} SliceSearch(scanner: Scanner, records: seq<Record>, a: string, sub: string)
    ensures ScopedOwned(scanner, a, RawSearch(Slice(records, a), sub)) ==
            ScopedOwned(scanner, a, RawSearch(records, sub))
  {
    if records == [] {
    } else {
      var first, rest := records[0], records[1..];
      var hit := if Occurs(sub, first.content) then [first] else [];
      SliceSearch(scanner, rest, a, sub);
      ScopedOwnedConcat(scanner, a, hit, RawSearch(rest, sub));
      ScopedOwnedConcat(scanner, a, hit, RawSearch(Slice(rest, a), sub));
      if TenantOf(first.key) == a {
        assert Slice(records, a)[0] == first && Slice(records, a)[1..] == Slice(rest, a);
      } else {
        assert Slice(records, a) == Slice(rest, a);
        assert ScopedOwned(scanner, a, hit) == [];
      }
    }
  }

  lemma {:induction false} OwnedKeysConcat(scanner: Scanner, a: string, records: seq<Record>,
                                           x: seq<string>, y: seq<string>)
    ensures OwnedKeys(scanner, a, records, x + y) ==
            OwnedKeys(scanner, a, records, x) + OwnedKeys(scanner, a, records, y)
  {
    if x == [] {
      assert x + y == y;
    } else {
      ConsConcat(x, y);
      OwnedKeysConcat(scanner, a, records, x[1..], y);
      Associate(KeyIfOwned(scanner, a, records, x[0]), OwnedKeys(scanner, a, records, x[1..]),
              OwnedKeys(scanner, a, records, y));
    }
  }

  lemma {:induction false} OwnedKeysInSlice(scanner: Scanner, a: string, records: seq<Record>, keys: seq<string>)
    ensures OwnedKeys(scanner, a, Slice(records, a), keys) == OwnedKeys(scanner, a, records, keys)
  {
    if keys == [] {
    } else {
      if TenantOf(keys[0]) == a { SliceGet(records, a, keys[0]); }
      OwnedKeysInSlice(scanner, a, records, keys[1..]);
    }
  }

  lemma {:induction false} SliceListed(scanner: Scanner, a: string, all: seq<Record>, records: seq<Record>,
                                       prefix: string)
    ensures OwnedKeys(scanner, a, all, RawListKeys(Slice(records, a), prefix)) ==
            OwnedKeys(scanner, a, all, RawListKeys(records, prefix))
  {
    if records == [] {
    } else {
      var first, rest := records[0], records[1..];
      var hit := if prefix <= first.key then [first.key] else [];
      SliceListed(scanner, a, all, rest, prefix);
      OwnedKeysConcat(scanner, a, all, hit, RawListKeys(rest, prefix));
      OwnedKeysConcat(scanner, a, all, hit, RawListKeys(Slice(rest, a), prefix));
      if TenantOf(first.key) == a {
        assert Slice(records, a)[0] == first && Slice(records, a)[1..] == Slice(rest, a);
      } else {
        assert Slice(records, a) == Slice(rest, a);
        assert OwnedKeys(scanner, a, all, hit) == [];
      }
    }
  }

  /** The prefix of a written key is the writer's reach, which is the writer itself when, and only
      when, its id has no colon. */
  lemma PrefixOfWrittenKey(b: string, kind: string, name: string)
    ensures TenantOf(KeyFor(b, kind, name)) == Reach(b)
    ensures Reach(b) == b <==> ':' !in b
  {
    var key, i := KeyFor(b, kind, name), Find(b + ":", ":");
    ColonAt(b + ":", |b|);
    forall j ensures At(key, j, ":") && j <= |b| <==> At(b + ":", j, ":") {
      AtIsPointwise(key, j, ":");
      AtIsPointwise(b + ":", j, ":");
      if 0 <= j <= |b| { assert key[j] == (b + ":")[j]; }
    }
    assert Find(key, ":") == i;
    assert key[..i] == (b + ":")[..i];
    assert (b + ":")[..i] == b[..i];
    if i == |b| {
      assert b[..i] == b;
      forall j | 0 <= j < |b| ensures b[j] != ':' {
        ColonAt(b + ":", j);
      }
    } else {
      AtIsPointwise(b + ":", i, ":");
      assert b[i] == (b + ":")[i + 0] == ':';
    }
  }

  lemma ColonAt(s: string, j: nat)
    requires j < |s|
    ensures At(s, j, ":") <==> s[j] == ':'
  {
    AtIsPointwise(s, j, ":");
    assert s[j + 0] == s[j];
  }

  lemma DeleteOnSlice(records: seq<Record>, a: string, scanner: Scanner, key: string)
    ensures Step(records, a, scanner, Op.Delete(key)).1 == Step(Slice(records, a), a, scanner, Op.Delete(key)).1
    ensures Slice(Step(records, a, scanner, Op.Delete(key)).0, a) ==
            Step(Slice(records, a), a, scanner, Op.Delete(key)).0
    ensures TenantOf(key) == a ==> Reach(a) == a
  {
    if TenantOf(key) == a {
      SliceGet(records, a, key);
      SliceDelete(records, a, key);
      NoColonInTenant(key);
      PrefixOfWrittenKey(a, "", "");
    }
  }

  lemma PutOnSlice(records: seq<Record>, a: string, scanner: Scanner, op: Op)
    requires op.Put?
    ensures Reach(a) == a ==>
              Slice(Step(records, a, scanner, op).0, a) == Step(Slice(records, a), a, scanner, op).0
    ensures Reach(a) != a ==>
              Slice(Step(records, a, scanner, op).0, a) == Slice(records, a)
  {
    PrefixOfWrittenKey(a, op.kind, op.name);
    SlicePut(records, a, Record(KeyFor(a, op.kind, op.name), a, op.kind, op.name, op.content, op.stamp));
  }

  lemma ListOnSlice(records: seq<Record>, a: string, scanner: Scanner, prefix: string)
    ensures OwnedKeys(scanner, a, Slice(records, a), RawListKeys(Slice(records, a), prefix)) ==
            OwnedKeys(scanner, a, records, RawListKeys(records, prefix))
  {
    OwnedKeysInSlice(scanner, a, records, RawListKeys(Slice(records, a), prefix));
    SliceListed(scanner, a, records, records, prefix);
  }

  lemma ReadsOnSlice(records: seq<Record>, a: string, scanner: Scanner, op: Op)
    requires op.Get? || op.ListKeys? || op.Search?
    ensures Step(records, a, scanner, op).1 == Step(Slice(records, a), a, scanner, op).1
  {
    match op
    case Get(key) =>
      if TenantOf(key) == a { SliceGet(records, a, key); }
    case ListKeys(prefix) => ListOnSlice(records, a, scanner, prefix);
    case Search(sub) => SliceSearch(scanner, records, a, sub);
  }

  /** An operation of `a` answers from its slice and acts on its slice, as if that were the store. */
  lemma StepOnSlice(records: seq<Record>, a: string, scanner: Scanner, op: Op)
    ensures Step(records, a, scanner, op).1 == Step(Slice(records, a), a, scanner, op).1
    ensures Reach(a) == a ==>
              Slice(Step(records, a, scanner, op).0, a) == Step(Slice(records, a), a, scanner, op).0
    ensures Reach(a) != a ==>
              Slice(Step(records, a, scanner, op).0, a) == Slice(records, a)
  {
    match op
    case Put(_, _, _, _, _) => PutOnSlice(records, a, scanner, op);
    case Delete(key) => DeleteOnSlice(records, a, scanner, key);
    case _ => ReadsOnSlice(records, a, scanner, op);
  }

  lemma NoColonInTenant(key: string)
    ensures ':' !in TenantOf(key)
  {
    var i := Find(key, ":");
    if i != -1 {
      forall j | 0 <= j < i ensures key[j] != ':' {
        ColonAt(key, j);
      }
    }
  }

  /** An operation of `b` leaves the slice of every tenant outside its reach as it was. */
  lemma StepLeavesOthers(records: seq<Record>, a: string, b: string, scanner: Scanner, op: Op)
    requires a != b && Reach(b) != a
    ensures Slice(Step(records, b, scanner, op).0, a) == Slice(records, a)
  {
    match op
    case Put(t, kind, name, content, stamp) =>
      PrefixOfWrittenKey(b, kind, name);
      SlicePut(records, a, Record(KeyFor(b, kind, name), b, kind, name, content, stamp));
    case Delete(key) =>
      SliceDelete(records, a, key);
    case _ =>
  }

  // ---- runs ----------------------------------------------------------------------------------

  /** One operation in an interleaved run: who, with which scanner state, what. */
  datatype Event = Event(tenant: string, scanner: Scanner, op: Op)

  ghost function Do(records: seq<Record>, e: Event): seq<Record> {
    Step(records, e.tenant, e.scanner, e.op).0
  }

  /** The answers tenant `a` gets in a run, in order. */
  ghost function AnswersTo(a: string, records: seq<Record>, es: seq<Event>): seq<Answer>
    decreases |es|
  {
    if es == [] then []
    else (if es[0].tenant == a then [Step(records, a, es[0].scanner, es[0].op).1] else [])
         + AnswersTo(a, Do(records, es[0]), es[1..])
  }

  ghost function RunAll(records: seq<Record>, es: seq<Event>): seq<Record>
    decreases |es|
  {
    if es == [] then records else RunAll(Do(records, es[0]), es[1..])
  }

  /** The run without the other tenants' operations. */
  function Only(a: string, es: seq<Event>): seq<Event> {
    if es == [] then []
    else (if es[0].tenant == a then [es[0]] else []) + Only(a, es[1..])
  }

  /** Every other tenant in the run writes outside the namespace of `a`. */
  predicate OutOfReach(a: string, es: seq<Event>) {
    forall e | e in es :: e.tenant == a || Reach(e.tenant) != a
  }

  lemma {:induction false} SameSliceSameAnswers(a: string, r1: seq<Record>, r2: seq<Record>, es: seq<Event>)
    requires OutOfReach(a, es) && Slice(r1, a) == Slice(r2, a)
    ensures AnswersTo(a, r1, es) == AnswersTo(a, r2, Only(a, es))
    decreases |es|
  {
    if es == [] {
    } else {
      var e, rest := es[0], es[1..];
      if e.tenant == a {
        StepOnSlice(r1, a, e.scanner, e.op);
        StepOnSlice(r2, a, e.scanner, e.op);
        SameSliceSameAnswers(a, Do(r1, e), Do(r2, e), rest);
        assert ([e] + Only(a, rest))[1..] == Only(a, rest);
      } else {
        StepLeavesOthers(r1, a, e.tenant, e.scanner, e.op);
        SameSliceSameAnswers(a, Do(r1, e), r2, rest);
        assert Only(a, es) == Only(a, rest);
      }
    }
  }

  /** Noninterference: other tenants' operations can be removed from any run, from any records,
      without changing one answer to `a`. */
  lemma Noninterference(a: string, records: seq<Record>, es: seq<Event>)
    requires OutOfReach(a, es)
    ensures AnswersTo(a, records, es) == AnswersTo(a, records, Only(a, es))
  {
    SameSliceSameAnswers(a, records, records, es);
  }

  /** Colon-free tenant ids are all out of each other's reach. */
  lemma ColonFreeTenantsIsolated(a: string, records: seq<Record>, es: seq<Event>)
    requires forall e | e in es :: ':' !in e.tenant
    ensures AnswersTo(a, records, es) == AnswersTo(a, records, Only(a, es))
  {
    forall e | e in es ensures Reach(e.tenant) == e.tenant {
      PrefixOfWrittenKey(e.tenant, "", "");
    }
    Noninterference(a, records, es);
  }

  /** In no run of the two tenants does `b` make a difference to what `a` sees. */
  ghost predicate Isolated(a: string, b: string) {
    forall records: seq<Record>, es: seq<Event> ::
      (forall e | e in es :: e.tenant == a || e.tenant == b) ==>
        AnswersTo(a, records, es) == AnswersTo(a, records, Only(a, es))
  }

  /** Two different tenants: `b` cannot affect `a` exactly when `a` is not the part of `b` before
      a colon. The code does not check tenant ids, so the condition is the caller's. */
  lemma IsolationExactly(a: string, b: string)
    requires a != b
    ensures Isolated(a, b) <==> Reach(b) != a
  {
    if Reach(b) != a {
      forall records: seq<Record>, es: seq<Event> | forall e | e in es :: e.tenant == a || e.tenant == b
        ensures AnswersTo(a, records, es) == AnswersTo(a, records, Only(a, es))
      {
        Noninterference(a, records, es);
      }
    } else {
      var es := ReachedTenantOverwrites(a, b);
    }
  }

  /** `b` is `a`, a colon and more: both file a record under one key, and `a` loses sight of it. */
  lemma ReachedTenantOverwrites(a: string, b: string) returns (es: seq<Event>)
    requires a != b && Reach(b) == a
    ensures forall e | e in es :: e.tenant == a || e.tenant == b
    ensures AnswersTo(a, [], es) != AnswersTo(a, [], Only(a, es))
  {
    PrefixOfWrittenKey(b, "", "");
    NoColonInTenant(b + ":");
    PrefixOfWrittenKey(a, "", "");
    var rest := SplitReach(b);
    assert KeyFor(b, "", "") == KeyFor(a, rest, ":");
    es := OneKeyTwoTenants(a, rest, ":", b, "", "");
  }

  lemma OneKeyTwoTenants(a: string, k1: string, n1: string, b: string, k2: string, n2: string)
    returns (es: seq<Event>)
    requires a != b && KeyFor(a, k1, n1) == KeyFor(b, k2, n2) && TenantOf(KeyFor(a, k1, n1)) == a
    ensures forall e | e in es :: e.tenant == a || e.tenant == b
    ensures AnswersTo(a, [], es) != AnswersTo(a, [], Only(a, es))
  {
    var key := KeyFor(a, k1, n1);
    var mine := Event(a, None, Op.Put(a, k1, n1, "", ""));
    var theirs := Event(b, None, Op.Put(b, k2, n2, "", ""));
    var look := Event(a, None, Op.Get(key));
    es := [mine, theirs, look];
    var r1, r2 := Record(key, a, k1, n1, "", ""), Record(key, b, k2, n2, "", "");
    assert Do([], mine) == [r1];
    assert Do([r1], theirs) == [r2];
    AnswersOneByOne(a, [], [mine, theirs, look]);
    AnswersOneByOne(a, [r1], [theirs, look]);
    AnswersOneByOne(a, [r2], [look]);
    OnlyOneByOne(a, mine, theirs, look);
    AnswersOneByOne(a, [], [mine, look]);
    AnswersOneByOne(a, [r1], [look]);
    assert AnswersTo(a, [], es)[1] == Fetched(None);
    assert AnswersTo(a, [], [mine, look])[1] == Fetched(Some(r1));
  }

  lemma OnlyOneByOne(a: string, x: Event, y: Event, z: Event)
    requires x.tenant == a && y.tenant != a && z.tenant == a
    ensures Only(a, [x, y, z]) == [x, z]
  {
    assert [x, y, z][1..] == [y, z] && [y, z][1..] == [z] && [z][1..] == [];
    assert Only(a, [z]) == [z];
    assert Only(a, [y, z]) == [z];
  }

  lemma AnswersOneByOne(a: string, records: seq<Record>, es: seq<Event>)
    requires es != []
    ensures AnswersTo(a, records, es) ==
            (if es[0].tenant == a then [Step(records, a, es[0].scanner, es[0].op).1] else [])
            + AnswersTo(a, Do(records, es[0]), es[1..])
    ensures |es| == 2 ==> es[1..] == [es[1]]
    ensures |es| == 3 ==> es[1..] == [es[1], es[2]]
    ensures |es| == 1 ==> es[1..] == [] && AnswersTo(a, Do(records, es[0]), es[1..]) == []
  {
  }

  lemma SplitReach(b: string) returns (rest: string)
    requires Reach(b) != b
    ensures b == Reach(b) + ":" + rest
  {
    var i := Find(b + ":", ":");
    ColonAt(b + ":", |b|);
    assert (b + ":")[..i] == b[..i];
    ColonAt(b + ":", i);
    assert b[..|b|] == b;
    rest := b[i + 1..];
    assert b == b[..i] + [b[i]] + b[i + 1..];
  }

  // ---- refinement ----------------------------------------------------------------------------

  /** Key prefix and stored tenant agree, and no key is there twice. */
  predicate Consistent(records: seq<Record>) {
    && (forall r | r in records :: TenantOf(r.key) == r.tenantId)
    && UniqueKeys(records)
  }

  predicate UniqueKeys(records: seq<Record>) {
    forall i, j | 0 <= i < j < |records| :: records[i].key != records[j].key
  }

  lemma UniqueCons(first: Record, rest: seq<Record>)
    ensures UniqueKeys([first] + rest) <==> UniqueKeys(rest) && forall r | r in rest :: r.key != first.key
  {
    var all := [first] + rest;
    if UniqueKeys(all) {
      forall i, j | 0 <= i < j < |rest| ensures rest[i].key != rest[j].key {
        assert all[i + 1].key != all[j + 1].key;
      }
      forall r | r in rest ensures r.key != first.key {
        var j :| 0 <= j < |rest| && rest[j] == r;
        assert all[0].key != all[j + 1].key;
      }
    }
  }

  ghost function RedactAll(scanner: Scanner, keys: seq<string>): seq<string> {
    if keys == [] then [] else [Redact(scanner, keys[0])] + RedactAll(scanner, keys[1..])
  }

  ghost function ScopedAll(scanner: Scanner, rs: seq<Record>): seq<Record> {
    if rs == [] then [] else [Scoped(scanner, rs[0])] + ScopedAll(scanner, rs[1..])
  }

  /** A private store of tenant `a`: no other tenant's records, so nothing read is checked. */
  ghost function PrivateStep(mine: seq<Record>, a: string, scanner: Scanner, op: Op): (seq<Record>, Answer) {
    match op
    case Put(t, kind, name, content, stamp) =>
      if t != a then (mine, Denied)
      else (RawPut(mine, Record(KeyFor(a, kind, name), a, kind, name, content, stamp)), Stored(KeyFor(a, kind, name)))
    case Delete(key) =>
      if TenantOf(key) != a then (mine, Denied)
      else (RawDelete(mine, key), Deleted(RawGet(mine, key).Some?))
    case Get(key) =>
      (match RawGet(mine, key)
       case None => (mine, Fetched(None))
       case Some(r) => (mine, Fetched(Some(Scoped(scanner, r)))))
    case ListKeys(prefix) => (mine, Listed(RedactAll(scanner, RawListKeys(mine, prefix))))
    case Search(substring) => (mine, Matched(ScopedAll(scanner, RawSearch(mine, substring))))
  }

  ghost function PrivateAnswers(a: string, mine: seq<Record>, es: seq<Event>): seq<Answer>
    decreases |es|
  {
    if es == [] then []
    else
      var (mine', answer) := PrivateStep(mine, a, es[0].scanner, es[0].op);
      [answer] + PrivateAnswers(a, mine', es[1..])
  }

  lemma {:induction false} SliceMembers(records: seq<Record>, a: string)
    ensures forall r | r in Slice(records, a) :: r in records && TenantOf(r.key) == a
  {
    if records == [] {
    } else {
      SliceMembers(records[1..], a);
    }
  }

  lemma {:induction false} SliceOwned(records: seq<Record>, a: string)
    requires Consistent(records)
    ensures Consistent(Slice(records, a))
  {
    SliceMembers(records, a);
    if records == [] {
    } else {
      var first, rest := records[0], records[1..];
      assert records == [first] + rest;
      UniqueCons(first, rest);
      SliceOwned(rest, a);
      SliceMembers(rest, a);
      UniqueCons(first, Slice(rest, a));
      SliceCons(first, rest, a);
      assert [] + Slice(rest, a) == Slice(rest, a);
    }
  }

  lemma {:induction false} GetFindsKey(records: seq<Record>, key: string)
    ensures RawGet(records, key).Some? ==>
              RawGet(records, key).value in records && RawGet(records, key).value.key == key
    ensures RawGet(records, key).None? ==> forall r | r in records :: r.key != key
  {
    if records == [] {
    } else {
      GetFindsKey(records[1..], key);
    }
  }

  lemma {:induction false} PutMembers(records: seq<Record>, r: Record)
    ensures forall q | q in RawPut(records, r) :: q == r || q in records
  {
    if records == [] {
    } else {
      PutMembers(records[1..], r);
    }
  }

  lemma {:induction false} PutUnique(records: seq<Record>, r: Record)
    requires UniqueKeys(records)
    ensures UniqueKeys(RawPut(records, r))
  {
    if records == [] {
    } else {
      var first, rest := records[0], records[1..];
      assert records == [first] + rest;
      UniqueCons(first, rest);
      if first.key == r.key {
        UniqueCons(r, rest);
      } else {
        PutUnique(rest, r);
        PutMembers(rest, r);
        UniqueCons(first, RawPut(rest, r));
      }
    }
  }

  lemma {:induction false} DeleteMembers(records: seq<Record>, key: string)
    ensures forall q | q in RawDelete(records, key) :: q in records
  {
    if records == [] {
    } else {
      DeleteMembers(records[1..], key);
    }
  }

  lemma {:induction false} DeleteUnique(records: seq<Record>, key: string)
    requires UniqueKeys(records)
    ensures UniqueKeys(RawDelete(records, key))
  {
    if records == [] {
    } else {
      var first, rest := records[0], records[1..];
      assert records == [first] + rest;
      UniqueCons(first, rest);
      DeleteUnique(rest, key);
      DeleteMembers(rest, key);
      UniqueCons(first, RawDelete(rest, key));
    }
  }

  /** A colon-free tenant's operation keeps the store consistent. */
  lemma StepConsistent(records: seq<Record>, a: string, scanner: Scanner, op: Op)
    requires Consistent(records) && ':' !in a
    ensures Consistent(Step(records, a, scanner, op).0)
  {
    match op
    case Put(t, kind, name, content, stamp) =>
      var r := Record(KeyFor(a, kind, name), a, kind, name, content, stamp);
      PrefixOfWrittenKey(a, kind, name);
      PutMembers(records, r);
      PutUnique(records, r);
    case Delete(key) =>
      DeleteMembers(records, key);
      DeleteUnique(records, key);
    case _ =>
  }

  lemma {:induction false} OwnSearch(scanner: Scanner, a: string, mine: seq<Record>, sub: string)
    requires Consistent(mine) && forall r | r in mine :: TenantOf(r.key) == a
    ensures ScopedOwned(scanner, a, RawSearch(mine, sub)) == ScopedAll(scanner, RawSearch(mine, sub))
  {
    if mine == [] {
    } else {
      OwnSearch(scanner, a, mine[1..], sub);
      var hits := RawSearch(mine[1..], sub);
      assert ([mine[0]] + hits)[1..] == hits;
      assert [] + hits == hits;
    }
  }

  predicate HasKey(records: seq<Record>, key: string) {
    exists r | r in records :: r.key == key
  }

  lemma KeyIsOwned(a: string, mine: seq<Record>, key: string)
    requires Consistent(mine) && HasKey(mine, key) && forall r | r in mine :: TenantOf(r.key) == a
    ensures TenantOf(key) == a && RawGet(mine, key).Some? && Owned(RawGet(mine, key).value, a)
  {
    GetFindsKey(mine, key);
  }

  lemma {:induction false} OwnKeys(scanner: Scanner, a: string, mine: seq<Record>, keys: seq<string>)
    requires Consistent(mine) && forall r | r in mine :: TenantOf(r.key) == a
    requires forall k | k in keys :: HasKey(mine, k)
    ensures OwnedKeys(scanner, a, mine, keys) == RedactAll(scanner, keys)
  {
    if keys == [] {
    } else {
      KeyIsOwned(a, mine, keys[0]);
      OwnKeys(scanner, a, mine, keys[1..]);
    }
  }

  lemma {:induction false} ListedAreKeys(records: seq<Record>, prefix: string)
    ensures forall k | k in RawListKeys(records, prefix) :: HasKey(records, k)
  {
    if records == [] {
    } else {
      ListedAreKeys(records[1..], prefix);
      forall k | k in RawListKeys(records, prefix) ensures HasKey(records, k) {
        if k == records[0].key {
          assert records[0] in records;
        } else {
          assert k in RawListKeys(records[1..], prefix);
          var r :| r in records[1..] && r.key == k;
          assert r in records;
        }
      }
    }
  }

  /** On a consistent slice the scoped checks never reject anything: it is a private store. */
  lemma SliceIsPrivate(mine: seq<Record>, a: string, scanner: Scanner, op: Op)
    requires Consistent(mine) && forall r | r in mine :: TenantOf(r.key) == a
    ensures Step(mine, a, scanner, op) == PrivateStep(mine, a, scanner, op)
  {
    match op
    case Get(key) => GetFindsKey(mine, key);
    case ListKeys(prefix) =>
      ListedAreKeys(mine, prefix);
      OwnKeys(scanner, a, mine, RawListKeys(mine, prefix));
    case Search(sub) => OwnSearch(scanner, a, mine, sub);
    case _ =>
  }

  /** One scoped operation keeps the store consistent, acts on its tenant's view as the private
      store would, and leaves every other tenant's view alone. */
  lemma RefinesPrivateStores(records: seq<Record>, a: string, scanner: Scanner, op: Op)
    requires Consistent(records) && ':' !in a
    ensures var (records', answer) := Step(records, a, scanner, op);
            && Consistent(records')
            && (Slice(records', a), answer) == PrivateStep(Slice(records, a), a, scanner, op)
            && forall b: string | b != a :: Slice(records', b) == Slice(records, b)
  {
    PrefixOfWrittenKey(a, "", "");
    SliceOwned(records, a);
    SliceMembers(records, a);
    StepConsistent(records, a, scanner, op);
    StepOnSlice(records, a, scanner, op);
    SliceIsPrivate(Slice(records, a), a, scanner, op);
    forall b: string | b != a ensures Slice(Step(records, a, scanner, op).0, b) == Slice(records, b) {
      StepLeavesOthers(records, b, a, scanner, op);
    }
  }

  /** Over a whole interleaved run each tenant sees exactly its private store's answers to its own
      operations, and the store stays consistent. */
  lemma {:induction false} RunRefinesPrivateStores(a: string, records: seq<Record>, es: seq<Event>)
    requires Consistent(records) && ':' !in a && forall e | e in es :: ':' !in e.tenant
    ensures Consistent(RunAll(records, es))
    ensures AnswersTo(a, records, es) == PrivateAnswers(a, Slice(records, a), Only(a, es))
    decreases |es|
  {
    if es == [] {
    } else {
      var e, rest := es[0], es[1..];
      RefinesPrivateStores(records, e.tenant, e.scanner, e.op);
      RunRefinesPrivateStores(a, Do(records, e), rest);
      if e.tenant == a {
        FirstIsMine(a, records, e, rest);
      } else {
        assert Slice(Do(records, e), a) == Slice(records, a);
        assert Only(a, es) == Only(a, rest);
      }
    }
  }

  lemma FirstIsMine(a: string, records: seq<Record>, e: Event, rest: seq<Event>)
    requires Consistent(records) && ':' !in a && e.tenant == a
    ensures PrivateAnswers(a, Slice(records, a), [e] + Only(a, rest)) ==
            [Step(records, a, e.scanner, e.op).1] + PrivateAnswers(a, Slice(Do(records, e), a), Only(a, rest))
  {
    RefinesPrivateStores(records, a, e.scanner, e.op);
    assert ([e] + Only(a, rest))[1..] == Only(a, rest);
  }

  // ---- what each operation shows and keeps ---------------------------------------------------

  lemma {:induction false} RawPutGet(records: seq<Record>, r: Record, key: string)
    ensures RawGet(RawPut(records, r), key) == if key == r.key then Some(r) else RawGet(records, key)
  {
    if records == [] {
    } else {
      var first, rest := records[0], records[1..];
      assert ([first] + RawPut(rest, r))[1..] == RawPut(rest, r);
      assert ([r] + rest)[1..] == rest;
      RawPutGet(rest, r, key);
    }
  }

  lemma {:induction false} RawDeleteGet(records: seq<Record>, gone: string, key: string)
    requires UniqueKeys(records)
    ensures RawGet(RawDelete(records, gone), key) == if key == gone then None else RawGet(records, key)
  {
    if records == [] {
    } else {
      var first, rest := records[0], records[1..];
      assert records == [first] + rest;
      UniqueCons(first, rest);
      assert ([first] + RawDelete(rest, gone))[1..] == RawDelete(rest, gone);
      RawDeleteGet(rest, gone, key);
      if first.key == gone { GetFindsKey(rest, gone); }
    }
  }

  /** A tenant reads back what it wrote, with the content redacted, and nothing after deleting it. */
  lemma ReadYourWrites(records: seq<Record>, a: string, scanner: Scanner, kind: string, name: string,
                       content: string, stamp: string)
    requires ':' !in a && UniqueKeys(records)
    ensures var key := KeyFor(a, kind, name);
            var written := Step(records, a, scanner, Op.Put(a, kind, name, content, stamp)).0;
            && Step(written, a, scanner, Op.Get(key)).1 ==
               Fetched(Some(Record(key, a, kind, name, Redact(scanner, content), stamp)))
            && Step(written, a, scanner, Op.Delete(key)).1 == Deleted(true)
            && Step(Step(written, a, scanner, Op.Delete(key)).0, a, scanner, Op.Get(key)).1 == Fetched(None)
  {
    var r := Record(KeyFor(a, kind, name), a, kind, name, content, stamp);
    PrefixOfWrittenKey(a, kind, name);
    RawPutGet(records, r, r.key);
    PutUnique(records, r);
    RawDeleteGet(RawPut(records, r), r.key, r.key);
  }

  /** An operation is refused exactly when it writes or deletes outside the tenant's own name or key
      prefix, and what is refused changes nothing. */
  lemma CrossTenantDenied(records: seq<Record>, a: string, scanner: Scanner, op: Op)
    ensures Step(records, a, scanner, op).1 == Denied <==>
            (op.Put? && op.tenantId != a) || (op.Delete? && TenantOf(op.key) != a)
    ensures Step(records, a, scanner, op).1 == Denied ==> Step(records, a, scanner, op).0 == records
  {
  }

  /** A fetch shows a record exactly when the key has one that is the tenant's by prefix and by
      stored tenant; a record where the two disagree is shown to nobody. */
  lemma GetShowsExactly(records: seq<Record>, a: string, scanner: Scanner, key: string)
    requires UniqueKeys(records)
    ensures match Step(records, a, scanner, Op.Get(key)).1
            case Fetched(Some(shown)) =>
              exists r | r in records ::
                && r.key == key && r.tenantId == a && TenantOf(r.key) == a
                && shown == r.(content := Redact(scanner, r.content))
            case Fetched(None) =>
              forall r | r in records :: r.key == key ==> r.tenantId != a || TenantOf(r.key) != a
            case _ => false
  {
    GetFindsKey(records, key);
    forall r | r in records && r.key == key ensures RawGet(records, key) == Some(r) {
      UniqueGet(records, r);
    }
  }

  lemma {:induction false} UniqueGet(records: seq<Record>, r: Record)
    requires UniqueKeys(records) && r in records
    ensures RawGet(records, r.key) == Some(r)
  {
    var first, rest := records[0], records[1..];
    assert records == [first] + rest;
    UniqueCons(first, rest);
    if r == first {
    } else {
      UniqueGet(rest, r);
    }
  }

  /** A search shows exactly the tenant's own records whose raw content has the substring. */
  lemma {:induction false} SearchShowsExactly(records: seq<Record>, a: string, scanner: Scanner, sub: string,
                                              shown: Record)
    ensures shown in ScopedOwned(scanner, a, RawSearch(records, sub)) <==>
            exists r | r in records ::
              && r.tenantId == a && TenantOf(r.key) == a && Occurs(sub, r.content)
              && shown == Scoped(scanner, r)
  {
    if records == [] {
    } else {
      var first, rest := records[0], records[1..];
      var hit := if Occurs(sub, first.content) then [first] else [];
      SearchShowsExactly(rest, a, scanner, sub, shown);
      ScopedOwnedConcat(scanner, a, hit, RawSearch(rest, sub));
      assert ScopedOwned(scanner, a, hit) == if hit == [] then [] else ScopedIfOwned(scanner, a, first) by {
        if hit != [] {
          assert hit[1..] == [];
          assert ScopedIfOwned(scanner, a, first) + [] == ScopedIfOwned(scanner, a, first);
        }
      }
      assert forall r :: r in records <==> r == first || r in rest;
    }
  }

  /** A listing shows exactly the redacted keys of the tenant's own records with the prefix. */
  lemma ListShowsExactly(records: seq<Record>, a: string, scanner: Scanner, prefix: string, shown: string)
    requires UniqueKeys(records)
    ensures shown in OwnedKeys(scanner, a, records, RawListKeys(records, prefix)) <==>
            exists r | r in records ::
              r.tenantId == a && TenantOf(r.key) == a && prefix <= r.key && shown == Redact(scanner, r.key)
  {
    var keys := RawListKeys(records, prefix);
    KeptExactly(scanner, a, records, keys, shown);
    forall k ensures (k in keys && IsOwnKey(records, a, k)) <==> OwnRecordWith(records, a, prefix, k) {
      ListedExactly(records, prefix, k);
      GetFindsKey(records, k);
      forall r | r in records && r.key == k ensures RawGet(records, k) == Some(r) {
        UniqueGet(records, r);
      }
    }
    if r :| r in records && Owned(r, a) && prefix <= r.key && shown == Redact(scanner, r.key) {
      assert OwnRecordWith(records, a, prefix, r.key);
    }
  }

  /** The check the listing loop makes on a candidate. */
  predicate IsOwnKey(records: seq<Record>, a: string, key: string) {
    TenantOf(key) == a && RawGet(records, key).Some? && Owned(RawGet(records, key).value, a)
  }

  predicate OwnRecordWith(records: seq<Record>, a: string, prefix: string, key: string) {
    exists r | r in records :: r.key == key && Owned(r, a) && prefix <= key
  }

  lemma {:induction false} ListedExactly(records: seq<Record>, prefix: string, key: string)
    ensures key in RawListKeys(records, prefix) <==> HasKey(records, key) && prefix <= key
  {
    if records == [] {
    } else {
      ListedExactly(records[1..], prefix, key);
      assert forall r :: r in records <==> r == records[0] || r in records[1..];
    }
  }

  lemma {:induction false} KeptExactly(scanner: Scanner, a: string, records: seq<Record>, keys: seq<string>,
                                       shown: string)
    ensures shown in OwnedKeys(scanner, a, records, keys) <==>
            exists k | k in keys :: IsOwnKey(records, a, k) && shown == Redact(scanner, k)
  {
    if keys == [] {
    } else {
      KeptExactly(scanner, a, records, keys[1..], shown);
      assert forall k :: k in keys <==> k == keys[0] || k in keys[1..];
    }
  }

  // ---- redaction -----------------------------------------------------------------------------

  /** A string is in no field of a record. */
  predicate NowhereIn(rep: string, r: Record) {
    !Occurs(rep, r.content) && NotInLabels(rep, r)
  }

  /** It is in none of the fields that come back as they are stored. */
  predicate NotInLabels(rep: string, r: Record) {
    && !Occurs(rep, r.key) && !Occurs(rep, r.tenantId) && !Occurs(rep, r.kind)
    && !Occurs(rep, r.name) && !Occurs(rep, r.updatedAt)
  }

  /** The content comes back without any safe encoding the scanner knows. The other fields come back
      as they are stored, so the encoding is in a returned record exactly when it was in these. */
  lemma FetchedRecordClean(records: seq<Record>, a: string, table: GoodTable, key: string, rep: string)
    requires rep in Keys(table) && MarkerSafe(rep)
    ensures match Step(records, a, Some(table), Op.Get(key)).1
            case Fetched(Some(shown)) =>
              && !Occurs(rep, shown.content)
              && (NowhereIn(rep, shown) <==> NotInLabels(rep, RawGet(records, key).value))
            case Fetched(None) => true
            case _ => false
  {
    if RawGet(records, key).Some? {
      ScanComplete(table, RawGet(records, key).value.content);
    }
  }

  /** A registered secret in a record's name is shown: only contents and listed keys are redacted. */
  lemma NameIsNotRedacted(a: string, table: GoodTable, secret: string)
    requires ':' !in a && secret in Keys(table)
    ensures var (records, _) := Step([], a, Some(table), Op.Put(a, "memory", secret, "", ""));
            match Step(records, a, Some(table), Op.Get(KeyFor(a, "memory", secret))).1
            case Fetched(Some(shown)) => shown.name == secret && !NowhereIn(secret, shown)
            case _ => false
  {
    PrefixOfWrittenKey(a, "memory", secret);
    OccursInItself(secret);
  }

  /** No safe encoding that the scanner knows is in a listed key. */
  lemma {:induction false} ListedKeysClean(scanner: Scanner, a: string, records: seq<Record>, keys: seq<string>,
                                           rep: string)
    requires scanner.Some? && rep in Keys(scanner.value) && MarkerSafe(rep)
    ensures forall k | k in OwnedKeys(scanner, a, records, keys) :: !Occurs(rep, k)
  {
    if keys == [] {
    } else {
      ListedKeysClean(scanner, a, records, keys[1..], rep);
      ScanComplete(scanner.value, keys[0]);
    }
  }

  /** The same for search hits: each is a stored record without the encoding in its content, and has
      it in another field exactly when the stored record does. */
  lemma {:induction false} MatchedRecordsClean(table: GoodTable, a: string, rs: seq<Record>, shown: Record,
                                               rep: string)
    requires rep in Keys(table) && MarkerSafe(rep) && shown in ScopedOwned(Some(table), a, rs)
    ensures !Occurs(rep, shown.content)
    ensures exists stored | stored in rs ::
              Owned(stored, a) && shown == Scoped(Some(table), stored)
              && (NowhereIn(rep, shown) <==> NotInLabels(rep, stored))
  {
    if shown in ScopedIfOwned(Some(table), a, rs[0]) {
      ScanComplete(table, rs[0].content);
      assert rs[0] in rs;
    } else {
      MatchedRecordsClean(table, a, rs[1..], shown, rep);
      var stored :| stored in rs[1..] && Owned(stored, a) && shown == Scoped(Some(table), stored)
                    && (NowhereIn(rep, shown) <==> NotInLabels(rep, stored));
      assert stored in rs;
    }
  }

  /** The store's scan followed by the registry's scan of the same text equals one scan. */
  lemma StoreThenRegistryScan(table: GoodTable, text: string)
    requires SafeTable(table)
    ensures Redact(Some(table), Redact(Some(table), text)) == Redact(Some(table), text)
  {
    RescanHarmless(table, text);
  }
}

/**
 What the scoped store answers, told from the history of operations and from the documented key
 format `tenant:kind:name`, without the functions that the store is built from.
 */
module StoreHistory {
  import opened Sequences
  import opened Text
  import opened BaseEncodings
  import opened OutputScanner
  import opened ScopedStore
  import opened StoreIsolation

  // ---- keys ----------------------------------------------------------------------------------

  lemma BeforeColon(x: string, y: string)
    requires ':' !in x
    ensures TenantOf(x + ":" + y) == x
  {
    var s := x + ":" + y;
    ColonAt(s, |x|);
    forall j | 0 <= j < |x| ensures !At(s, j, ":") {
      ColonAt(s, j);
      assert s[j] == x[j];
    }
    assert Find(s, ":") == |x|;
    assert s[..|x|] == x;
  }

  /** A key belongs to a tenant exactly when it starts with the tenant's id and a colon, and the id
      has none. A key without a colon, or that starts with one, is nobody's. */
  lemma TenantOfExactly(key: string, a: string)
    requires a != ""
    ensures TenantOf(key) == a <==> ':' !in a && a + ":" <= key
    ensures TenantOf(key) == "" <==> ':' !in key || key[0] == ':'
  {
    var i := Find(key, ":");
    if i == -1 {
      forall j | 0 <= j < |key| ensures key[j] != ':' {
        ColonAt(key, j);
      }
    } else {
      ColonAt(key, i);
      NoColonInTenant(key);
      assert key == key[..i] + ":" + key[i + 1..];
      if i > 0 { assert key[0] == key[..i][0]; }
    }
    if ':' !in a && a + ":" <= key {
      assert key == a + ":" + key[|a| + 1..];
      BeforeColon(a, key[|a| + 1..]);
    }
  }

  /** Nobody can fetch or delete under a key without a colon. */
  lemma NobodysKey(records: seq<Record>, a: string, scanner: Scanner, key: string)
    requires a != "" && ':' !in key
    ensures Step(records, a, scanner, Op.Delete(key)) == (records, Denied)
    ensures Step(records, a, scanner, Op.Get(key)) == (records, Fetched(None))
  {
    TenantOfExactly(key, a);
  }

  lemma AfterColon(x: string, y: string)
    ensures (x + ":" + y)[|x| + 1..] == y
  {
  }

  /** Kind and name can be read off a key. */
  lemma SameKey(a: string, kind: string, name: string, kind': string, name': string)
    requires ':' !in kind && ':' !in kind'
    ensures a + ":" + kind + ":" + name == a + ":" + kind' + ":" + name' <==> kind == kind' && name == name'
  {
    var x, y := kind + ":" + name, kind' + ":" + name';
    assert a + ":" + kind + ":" + name == a + ":" + x;
    assert a + ":" + kind' + ":" + name' == a + ":" + y;
    AfterColon(a, x);
    AfterColon(a, y);
    BeforeColon(kind, name);
    BeforeColon(kind', name');
    AfterColon(kind, name);
    AfterColon(kind', name');
  }

  /** Writing one record leaves what a tenant reads under the key of any other kind or name. */
  lemma WriteKeepsOthers(records: seq<Record>, a: string, scanner: Scanner, put: Op, other: Op)
    requires put.Put? && other.Put? && put.tenantId == a && other.tenantId == a
    requires ':' !in put.kind && ':' !in other.kind && (put.kind != other.kind || put.name != other.name)
    ensures var written := Step(records, a, scanner, put).0;
            match Step(records, a, scanner, other).1
            case Stored(key) => Step(written, a, scanner, Op.Get(key)).1 == Step(records, a, scanner, Op.Get(key)).1
            case _ => false
  {
    SameKey(a, put.kind, put.name, other.kind, other.name);
    var r := Record(KeyFor(a, put.kind, put.name), a, put.kind, put.name, put.content, put.stamp);
    RawPutGet(records, r, KeyFor(a, other.kind, other.name));
  }

  // ---- what is read is what was written last -------------------------------------------------

  lemma {:induction false} RunAllConcat(records: seq<Record>, xs: seq<Event>, ys: seq<Event>)
    ensures RunAll(records, xs + ys) == RunAll(RunAll(records, xs), ys)
    decreases |xs|
  {
    if xs == [] {
      assert xs + ys == ys;
    } else {
      ConsConcat(xs, ys);
      RunAllConcat(Do(records, xs[0]), xs[1..], ys);
    }
  }

  lemma RunAllLast(records: seq<Record>, es: seq<Event>)
    requires es != []
    ensures RunAll(records, es) == Do(RunAll(records, es[..|es| - 1]), es[|es| - 1])
  {
    var last := [es[|es| - 1]];
    assert es == es[..|es| - 1] + last;
    RunAllConcat(records, es[..|es| - 1], last);
    assert last[1..] == [];
    assert RunAll(Do(RunAll(records, es[..|es| - 1]), last[0]), []) ==
           Do(RunAll(records, es[..|es| - 1]), last[0]);
  }

  datatype Written = Written(content: string, stamp: string)

  /** What tenant `a` wrote last under a kind and a name, unless it has deleted that since. */
  function LastWrite(es: seq<Event>, a: string, kind: string, name: string): Option<Written> {
    if es == [] then None
    else
      var e := es[|es| - 1];
      if e.tenant == a && e.op.Put? && e.op.tenantId == a && e.op.kind == kind && e.op.name == name
      then Some(Written(e.op.content, e.op.stamp))
      else if e.tenant == a && e.op == Op.Delete(a + ":" + kind + ":" + name) then None
      else LastWrite(es[..|es| - 1], a, kind, name)
  }

  predicate ColonFree(es: seq<Event>) {
    forall e | e in es :: ':' !in e.tenant && (e.op.Put? ==> ':' !in e.op.kind)
  }

  ghost function Found(a: string, kind: string, name: string, w: Option<Written>): Option<Record> {
    match w
    case None => None
    case Some(Written(content, stamp)) => Some(Record(a + ":" + kind + ":" + name, a, kind, name, content, stamp))
  }

  lemma StepUnique(records: seq<Record>, e: Event)
    requires UniqueKeys(records)
    ensures UniqueKeys(Do(records, e))
  {
    match e.op
    case Put(t, kind, name, content, stamp) =>
      PutUnique(records, Record(KeyFor(t, kind, name), t, kind, name, content, stamp));
    case Delete(key) => DeleteUnique(records, key);
    case _ =>
  }

  lemma StepGet(records: seq<Record>, e: Event, a: string, kind: string, name: string)
    requires UniqueKeys(records) && ':' !in a && ':' !in kind && ColonFree([e])
    ensures var key := a + ":" + kind + ":" + name;
            RawGet(Do(records, e), key) ==
            if e.tenant == a && e.op.Put? && e.op.tenantId == a && e.op.kind == kind && e.op.name == name
            then Found(a, kind, name, Some(Written(e.op.content, e.op.stamp)))
            else if e.tenant == a && e.op == Op.Delete(key) then None
            else RawGet(records, key)
  {
    var key := a + ":" + kind + ":" + name;
    assert key == KeyFor(a, kind, name);
    PrefixOfWrittenKey(a, kind, name);
    assert e in [e];
    match e.op
    case Put(t, k, n, content, stamp) =>
      PrefixOfWrittenKey(t, k, n);
      SameKey(a, kind, name, k, n);
      if t == e.tenant {
        PrefixOfWrittenKey(e.tenant, "", "");
        RawPutGet(records, Record(KeyFor(t, k, n), t, k, n, content, stamp), key);
      }
    case Delete(gone) =>
      if TenantOf(gone) == e.tenant { RawDeleteGet(records, gone, key); }
    case _ =>
  }

  lemma {:induction false} StoreIsHistory(es: seq<Event>, a: string, kind: string, name: string)
    requires ColonFree(es) && ':' !in a && ':' !in kind
    ensures UniqueKeys(RunAll([], es))
    ensures RawGet(RunAll([], es), a + ":" + kind + ":" + name) == Found(a, kind, name, LastWrite(es, a, kind, name))
  {
    if es == [] {
    } else {
      var before, e := es[..|es| - 1], es[|es| - 1];
      StoreIsHistory(before, a, kind, name);
      RunAllLast([], es);
      StepUnique(RunAll([], before), e);
      StepGet(RunAll([], before), e, a, kind, name);
    }
  }

  /** After any interleaved run of colon-free tenants a fetch under the documented key answers with
      what its tenant wrote last under that kind and name, redacted, or with nothing if it wrote
      nothing there or has deleted it; a deletion says which; and a write answers with that key. */
  lemma AnswersAreHistory(es: seq<Event>, a: string, kind: string, name: string, scanner: Scanner,
                          content: string, stamp: string)
    requires ColonFree(es) && ':' !in a && ':' !in kind
    ensures var key := a + ":" + kind + ":" + name;
            var records := RunAll([], es);
            && Step(records, a, scanner, Op.Put(a, kind, name, content, stamp)).1 == Stored(key)
            && Step(records, a, scanner, Op.Delete(key)).1 == Deleted(LastWrite(es, a, kind, name).Some?)
            && Step(records, a, scanner, Op.Get(key)).1 ==
               match LastWrite(es, a, kind, name)
               case None => Fetched(None)
               case Some(w) => Fetched(Some(Record(key, a, kind, name, Seen(scanner, w.content), w.stamp)))
  {
    StoreIsHistory(es, a, kind, name);
    PrefixOfWrittenKey(a, kind, name);
  }

  /** A text as it is without a scanner, and its scan with one. */
  ghost function Seen(scanner: Scanner, text: string): string {
    if scanner.Some? then Scan(scanner.value, text).redacted else text
  }

  // ---- what is listed, in which order --------------------------------------------------------

  predicate NoKey(records: seq<Record>, key: string) {
    forall i | 0 <= i < |records| :: records[i].key != key
  }

  lemma NoKeyCons(first: Record, rest: seq<Record>, key: string)
    requires first.key != key && NoKey(rest, key)
    ensures NoKey([first] + rest, key)
  {
  }

  /** A new record comes last; one whose key is there takes its place. */
  lemma {:induction false} PutPlace(records: seq<Record>, r: Record) returns (i: nat)
    ensures i <= |records| && (i == |records| <==> NoKey(records, r.key))
    ensures i < |records| ==> records[i].key == r.key && RawPut(records, r) == records[i := r]
    ensures i == |records| ==> RawPut(records, r) == records + [r]
  {
    if records == [] || records[0].key == r.key {
      i := 0;
    } else {
      var first, rest := records[0], records[1..];
      assert records == [first] + rest;
      i := PutPlace(rest, r);
      if i == |rest| { NoKeyCons(first, rest, r.key); }
      i := i + 1;
    }
  }

  /** One record goes and the others close up, or nothing happens. */
  lemma {:induction false} DeletePlace(records: seq<Record>, key: string) returns (i: nat)
    ensures i <= |records| && (i == |records| <==> NoKey(records, key))
    ensures i < |records| ==> records[i].key == key && RawDelete(records, key) == records[..i] + records[i + 1..]
    ensures i == |records| ==> RawDelete(records, key) == records
  {
    if records == [] || records[0].key == key {
      i := 0;
    } else {
      var first, rest := records[0], records[1..];
      assert records == [first] + rest;
      i := DeletePlace(rest, key);
      if i == |rest| { NoKeyCons(first, rest, key); }
      i := i + 1;
    }
  }

  /** Places in rising order, so each at most once. */
  predicate Rising(places: seq<nat>) {
    forall i, j | 0 <= i < j < |places| :: places[i] < places[j]
  }

  function Shift(places: seq<nat>, hit: bool): (r: seq<nat>)
    ensures Rising(places) ==> Rising(r)
    ensures forall i: nat :: i in r <==> (i == 0 && hit) || (i > 0 && i - 1 in places)
  {
    var moved := seq(|places|, k requires 0 <= k < |places| => places[k] + 1);
    assert forall i: nat :: i in moved <==> i > 0 && i - 1 in places by {
      forall i: nat ensures i in moved <==> i > 0 && i - 1 in places {
        if i > 0 && i - 1 in places {
          var k :| 0 <= k < |places| && places[k] == i - 1;
          assert moved[k] == i;
        }
      }
    }
    (if hit then [0] else []) + moved
  }

  /** The record is the tenant's, by its key and by its stored tenant, and its key has the prefix. */
  predicate ListedFor(a: string, prefix: string, r: Record) {
    r.tenantId == a && TenantOf(r.key) == a && prefix <= r.key
  }

  predicate MatchedFor(a: string, sub: string, r: Record) {
    r.tenantId == a && TenantOf(r.key) == a && Occurs(sub, r.content)
  }

  /** The places are those of the records that `p` picks. */
  ghost predicate Selects(places: seq<nat>, records: seq<Record>, p: Record -> bool) {
    Rising(places) && forall i: nat :: i in places <==> i < |records| && p(records[i])
  }

  /** The values are those of the records at the places, in order. */
  ghost predicate Shows<T>(xs: seq<T>, places: seq<nat>, records: seq<Record>, f: Record -> T) {
    |xs| == |places| && forall k | 0 <= k < |places| :: places[k] < |records| && xs[k] == f(records[places[k]])
  }

  lemma SelectsCons(later: seq<nat>, first: Record, rest: seq<Record>, p: Record -> bool)
    requires Selects(later, rest, p)
    ensures Selects(Shift(later, p(first)), [first] + rest, p)
  {
    var records := [first] + rest;
    forall i: nat ensures i in Shift(later, p(first)) <==> i < |records| && p(records[i]) {
      if i > 0 { assert i - 1 in later <==> i - 1 < |rest| && p(rest[i - 1]); }
    }
  }

  lemma ShowsCons<T>(xs: seq<T>, later: seq<nat>, first: Record, rest: seq<Record>, hit: bool, f: Record -> T)
    requires Shows(xs, later, rest, f)
    ensures Shows((if hit then [f(first)] else []) + xs, Shift(later, hit), [first] + rest, f)
  {
    var places, records := Shift(later, hit), [first] + rest;
    var ys := (if hit then [f(first)] else []) + xs;
    var o := if hit then 1 else 0;
    forall k | 0 <= k < |places| ensures places[k] < |records| && ys[k] == f(records[places[k]]) {
      if k >= o {
        assert places[k] == later[k - o] + 1 && ys[k] == xs[k - o];
        assert records[places[k]] == rest[later[k - o]];
      }
    }
  }

  lemma {:induction false} KeysInOrder(all: seq<Record>, records: seq<Record>, a: string, scanner: Scanner,
                                       prefix: string) returns (places: seq<nat>)
    requires forall r | r in records :: RawGet(all, r.key) == Some(r)
    ensures Selects(places, records, (r: Record) => ListedFor(a, prefix, r))
    ensures Shows(OwnedKeys(scanner, a, all, RawListKeys(records, prefix)), places, records,
                  (r: Record) => Redact(scanner, r.key))
  {
    if records == [] {
      places := [];
    } else {
      var first, rest := records[0], records[1..];
      var later := KeysInOrder(all, rest, a, scanner, prefix);
      places := Shift(later, ListedFor(a, prefix, first));
      assert records == [first] + rest && first in records;
      SelectsCons(later, first, rest, (r: Record) => ListedFor(a, prefix, r));
      ShowsCons(OwnedKeys(scanner, a, all, RawListKeys(rest, prefix)), later, first, rest,
                ListedFor(a, prefix, first), (r: Record) => Redact(scanner, r.key));
      FirstListed(all, first, rest, a, scanner, prefix);
    }
  }

  lemma FirstListed(all: seq<Record>, first: Record, rest: seq<Record>, a: string, scanner: Scanner, prefix: string)
    requires RawGet(all, first.key) == Some(first)
    ensures OwnedKeys(scanner, a, all, RawListKeys([first] + rest, prefix)) ==
            (if ListedFor(a, prefix, first) then [Redact(scanner, first.key)] else [])
            + OwnedKeys(scanner, a, all, RawListKeys(rest, prefix))
  {
    assert ([first] + rest)[1..] == rest;
    var hit := if prefix <= first.key then [first.key] else [];
    OwnedKeysConcat(scanner, a, all, hit, RawListKeys(rest, prefix));
    if prefix <= first.key {
      assert hit[1..] == [];
      assert KeyIfOwned(scanner, a, all, first.key) + [] == KeyIfOwned(scanner, a, all, first.key);
    }
  }

  /** A listing shows the keys of exactly the tenant's own records with the prefix, each once and in
      the order of the records. */
  lemma ListsInOrder(records: seq<Record>, a: string, scanner: Scanner, prefix: string) returns (places: seq<nat>)
    requires UniqueKeys(records)
    ensures Rising(places) && forall i: nat :: i in places <==> i < |records| && ListedFor(a, prefix, records[i])
    ensures match Step(records, a, scanner, Op.ListKeys(prefix)).1
            case Listed(keys) =>
              |keys| == |places| &&
              forall k | 0 <= k < |places| :: places[k] < |records| && keys[k] == Seen(scanner, records[places[k]].key)
            case _ => false
  {
    forall r | r in records ensures RawGet(records, r.key) == Some(r) {
      UniqueGet(records, r);
    }
    places := KeysInOrder(records, records, a, scanner, prefix);
  }

  lemma {:induction false} MatchesInOrder(records: seq<Record>, a: string, scanner: Scanner, sub: string)
    returns (places: seq<nat>)
    ensures Selects(places, records, (r: Record) => MatchedFor(a, sub, r))
    ensures Shows(ScopedOwned(scanner, a, RawSearch(records, sub)), places, records, (r: Record) => Scoped(scanner, r))
  {
    if records == [] {
      places := [];
    } else {
      var first, rest := records[0], records[1..];
      var later := MatchesInOrder(rest, a, scanner, sub);
      places := Shift(later, MatchedFor(a, sub, first));
      assert records == [first] + rest;
      SelectsCons(later, first, rest, (r: Record) => MatchedFor(a, sub, r));
      ShowsCons(ScopedOwned(scanner, a, RawSearch(rest, sub)), later, first, rest,
                MatchedFor(a, sub, first), (r: Record) => Scoped(scanner, r));
      FirstMatched(first, rest, a, scanner, sub);
    }
  }

  lemma FirstMatched(first: Record, rest: seq<Record>, a: string, scanner: Scanner, sub: string)
    ensures ScopedOwned(scanner, a, RawSearch([first] + rest, sub)) ==
            (if MatchedFor(a, sub, first) then [Scoped(scanner, first)] else [])
            + ScopedOwned(scanner, a, RawSearch(rest, sub))
  {
    assert ([first] + rest)[1..] == rest;
    var hit := if Occurs(sub, first.content) then [first] else [];
    ScopedOwnedConcat(scanner, a, hit, RawSearch(rest, sub));
    if Occurs(sub, first.content) {
      assert hit[1..] == [];
      assert ScopedIfOwned(scanner, a, first) + [] == ScopedIfOwned(scanner, a, first);
    }
  }

  /** A search shows exactly the tenant's own records whose stored content has the substring, each once
      and in order, with the content redacted. */
  lemma SearchesInOrder(records: seq<Record>, a: string, scanner: Scanner, sub: string) returns (places: seq<nat>)
    ensures Rising(places) && forall i: nat :: i in places <==> i < |records| && MatchedFor(a, sub, records[i])
    ensures match Step(records, a, scanner, Op.Search(sub)).1
            case Matched(shown) =>
              |shown| == |places| &&
              forall k | 0 <= k < |places| ::
                && places[k] < |records|
                && shown[k] == records[places[k]].(content := Seen(scanner, records[places[k]].content))
            case _ => false
  {
    places := MatchesInOrder(records, a, scanner, sub);
  }

  // ---- one kind of record --------------------------------------------------------------------

  /** The records of a run are filed under tenant, kind and name. */
  predicate Filed(records: seq<Record>) {
    forall r | r in records :: r.key == r.tenantId + ":" + r.kind + ":" + r.name && ':' !in r.kind
  }

  lemma {:induction false} RunsFile(es: seq<Event>)
    requires forall e | e in es && e.op.Put? :: ':' !in e.op.kind
    ensures UniqueKeys(RunAll([], es)) && Filed(RunAll([], es))
  {
    if es == [] {
    } else {
      var before, e := es[..|es| - 1], es[|es| - 1];
      RunsFile(before);
      RunAllLast([], es);
      StepUnique(RunAll([], before), e);
      match e.op
      case Put(t, k, n, content, stamp) =>
        PutMembers(RunAll([], before), Record(KeyFor(t, k, n), t, k, n, content, stamp));
      case Delete(key) => DeleteMembers(RunAll([], before), key);
      case _ =>
    }
  }

  /** In every run with colon-free kinds, listing with a tenant and a kind as the prefix shows the keys
      of exactly that tenant's records of that kind, in order; what follows the prefix is the name. */
  lemma ListsOneKind(es: seq<Event>, a: string, kind: string, scanner: Scanner) returns (places: seq<nat>)
    requires ':' !in a && ':' !in kind && forall e | e in es && e.op.Put? :: ':' !in e.op.kind
    ensures var records := RunAll([], es);
            && Rising(places)
            && (forall i: nat :: i in places <==>
                  i < |records| && records[i].tenantId == a && records[i].kind == kind)
            && (forall i: nat | i in places ::
                  i < |records| && records[i].key == a + ":" + kind + ":" + records[i].name)
    ensures match Step(RunAll([], es), a, scanner, Op.ListKeys(a + ":" + kind + ":")).1
            case Listed(keys) =>
              |keys| == |places| &&
              forall k | 0 <= k < |places| ::
                places[k] < |RunAll([], es)| && keys[k] == Seen(scanner, RunAll([], es)[places[k]].key)
            case _ => false
  {
    var records := RunAll([], es);
    RunsFile(es);
    places := ListsInOrder(records, a, scanner, a + ":" + kind + ":");
    forall i: nat | i < |records|
      ensures ListedFor(a, a + ":" + kind + ":", records[i]) <==> records[i].tenantId == a && records[i].kind == kind
    {
      assert records[i] in records;
      KindPrefix(a, kind, records[i]);
    }
  }

  lemma KindPrefix(a: string, kind: string, r: Record)
    requires ':' !in a && ':' !in kind && Filed([r])
    ensures ListedFor(a, a + ":" + kind + ":", r) <==> r.tenantId == a && r.kind == kind
  {
    assert r in [r];
    if r.tenantId == a {
      BeforeColon(a, r.kind + ":" + r.name);
      assert r.key == a + ":" + (r.kind + ":" + r.name);
      var prefix := a + ":" + kind + ":";
      if prefix <= r.key {
        var rest := r.key[|prefix|..];
        assert r.key == a + ":" + kind + ":" + rest;
        SameKey(a, r.kind, r.name, kind, rest);
      }
    }
  }
}

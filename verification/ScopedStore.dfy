/**
 The per-tenant view over one shared raw store. `Step` says what one operation of a tenant does to
 the raw records and what it answers; the classes below implement it.
 */
module ScopedStore {
  import opened Sequences
  import opened Text
  import opened BaseEncodings
  import opened OutputScanner

  datatype Record = Record(key: string, tenantId: string, kind: string, name: string,
                           content: string, updatedAt: string)

  /** A scanner at one moment: none, or one with this table. */
  type Scanner = Option<GoodTable>

  // ---- the raw store -------------------------------------------------------------------------

  function RawGet(records: seq<Record>, key: string): Option<Record> {
    if records == [] then None
    else if records[0].key == key then Some(records[0])
    else RawGet(records[1..], key)
  }

  /** Upsert: a record with the same key is replaced where it is. */
  function RawPut(records: seq<Record>, r: Record): seq<Record> {
    if records == [] then [r]
    else if records[0].key == r.key then [r] + records[1..]
    else [records[0]] + RawPut(records[1..], r)
  }

  function RawDelete(records: seq<Record>, key: string): seq<Record> {
    if records == [] then []
    else if records[0].key == key then records[1..]
    else [records[0]] + RawDelete(records[1..], key)
  }

  function RawListKeys(records: seq<Record>, prefix: string): seq<string> {
    if records == [] then []
    else (if prefix <= records[0].key then [records[0].key] else []) + RawListKeys(records[1..], prefix)
  }

  function RawSearch(records: seq<Record>, substring: string): seq<Record> {
    if records == [] then []
    else (if Occurs(substring, records[0].content) then [records[0]] else [])
         + RawSearch(records[1..], substring)
  }

  // ---- keys and ownership --------------------------------------------------------------------

  /** The tenant encoded in a key: what precedes the first colon, or "" without a colon. */
  function TenantOf(key: string): string {
    var i := Find(key, ":");
    if i == -1 then "" else key[..i]
  }

  function KeyFor(tenant: string, kind: string, name: string): string {
    tenant + ":" + kind + ":" + name
  }

  predicate Owned(r: Record, tenant: string) {
    TenantOf(r.key) == tenant && r.tenantId == tenant
  }

  // ---- one operation -------------------------------------------------------------------------

  datatype Op =
    | Put(tenantId: string, kind: string, name: string, content: string, stamp: string)
    | Delete(key: string)
    | Get(key: string)
    | ListKeys(prefix: string)
    | Search(substring: string)

  datatype Answer =
    | Denied
    | Stored(key: string)
    | Deleted(found: bool)
    | Fetched(record: Option<Record>)
    | Listed(keys: seq<string>)
    | Matched(records: seq<Record>)

  ghost function Redact(scanner: Scanner, text: string): string {
    match scanner
    case None => text
    case Some(table) => Scan(table, text).redacted
  }

  ghost function Scoped(scanner: Scanner, r: Record): Record {
    r.(content := Redact(scanner, r.content))
  }

  ghost function ScopedIfOwned(scanner: Scanner, tenant: string, r: Record): seq<Record> {
    if Owned(r, tenant) then [Scoped(scanner, r)] else []
  }

  /** The comprehension over search hits. */
  ghost function ScopedOwned(scanner: Scanner, tenant: string, rs: seq<Record>): seq<Record> {
    if rs == [] then [] else ScopedIfOwned(scanner, tenant, rs[0]) + ScopedOwned(scanner, tenant, rs[1..])
  }

  ghost function KeyIfOwned(scanner: Scanner, tenant: string, records: seq<Record>, key: string): seq<string> {
    var r := RawGet(records, key);
    if TenantOf(key) == tenant && r.Some? && Owned(r.value, tenant) then [Redact(scanner, key)] else []
  }

  /** The loop over listed keys, which fetches each candidate and checks who owns it. */
  ghost function OwnedKeys(scanner: Scanner, tenant: string, records: seq<Record>, keys: seq<string>): seq<string> {
    if keys == [] then []
    else KeyIfOwned(scanner, tenant, records, keys[0]) + OwnedKeys(scanner, tenant, records, keys[1..])
  }

  /** What one operation of `tenant` does to the raw records, and what it answers. */
  ghost function Step(records: seq<Record>, tenant: string, scanner: Scanner, op: Op): (seq<Record>, Answer) {
    match op
    case Put(t, kind, name, content, stamp) =>
      if t != tenant then (records, Denied)
      else
        var key := KeyFor(t, kind, name);
        (RawPut(records, Record(key, t, kind, name, content, stamp)), Stored(key))
    case Delete(key) =>
      if TenantOf(key) != tenant then (records, Denied)
      else (RawDelete(records, key), Deleted(RawGet(records, key).Some?))
    case Get(key) =>
      if TenantOf(key) != tenant then (records, Fetched(None))
      else
        (match RawGet(records, key)
         case None => (records, Fetched(None))
         case Some(r) =>
           if Owned(r, tenant) then (records, Fetched(Some(Scoped(scanner, r)))) else (records, Fetched(None)))
    case ListKeys(prefix) =>
      (records, Listed(OwnedKeys(scanner, tenant, records, RawListKeys(records, prefix))))
    case Search(substring) =>
      (records, Matched(ScopedOwned(scanner, tenant, RawSearch(records, substring))))
  }

  // ---- the objects ---------------------------------------------------------------------------

  /** The host's shared store, as the scoped view relies on it. */
  class RawStore {
    var records: seq<Record>

    constructor ()
      ensures records == []
    {
      records := [];
    }

    method Put(r: Record) returns (key: string)
      modifies this
      ensures records == RawPut(old(records), r) && key == r.key
    {
      records := RawPut(records, r);
      key := r.key;
    }

    method Delete(key: string) returns (found: bool)
      modifies this
      ensures records == RawDelete(old(records), key) && found == RawGet(old(records), key).Some?
    {
      found := RawGet(records, key).Some?;
      records := RawDelete(records, key);
    }
  }

  class ScopedStore {
    const raw: RawStore
    const tenant: string
    const scanner: OutputScanner?

    constructor (raw: RawStore, tenant: string, scanner: OutputScanner?)
      ensures this.raw == raw && this.tenant == tenant && this.scanner == scanner
    {
      this.raw := raw;
      this.tenant := tenant;
      this.scanner := scanner;
    }

    ghost predicate Valid()
      reads this, scanner
    {
      scanner != null ==> scanner.Valid()
    }

    ghost function Snapshot(): Scanner
      reads this, scanner
      requires Valid()
    {
      if scanner == null then None else Some(scanner.reps)
    }

    method Put(tenantId: string, kind: string, name: string, content: string, stamp: string) returns (a: Answer)
      requires Valid()
      modifies raw
      ensures Valid()
      ensures (raw.records, a) ==
              Step(old(raw.records), tenant, Snapshot(), Op.Put(tenantId, kind, name, content, stamp))
    {
      if tenantId != tenant {
        return Denied;
      }
      var key := raw.Put(Record(KeyFor(tenantId, kind, name), tenantId, kind, name, content, stamp));
      a := Stored(key);
    }

    method Delete(key: string) returns (a: Answer)
      requires Valid()
      modifies raw
      ensures Valid()
      ensures (raw.records, a) == Step(old(raw.records), tenant, Snapshot(), Op.Delete(key))
    {
      if TenantOf(key) != tenant {
        return Denied;
      }
      var found := raw.Delete(key);
      a := Deleted(found);
    }

    method Get(key: string) returns (a: Answer)
      requires Valid()
      ensures (raw.records, a) == Step(raw.records, tenant, Snapshot(), Op.Get(key))
    {
      if TenantOf(key) != tenant {
        return Fetched(None);
      }
      var record := RawGet(raw.records, key);
      if record == None || !Owned(record.value, tenant) {
        return Fetched(None);
      }
      var r := ScopedCopy(record.value);
      a := Fetched(Some(r));
    }

    method ListKeys(prefix: string) returns (a: Answer)
      requires Valid()
      ensures (raw.records, a) == Step(raw.records, tenant, Snapshot(), Op.ListKeys(prefix))
    {
      var out := KeepOwnedKeys(RawListKeys(raw.records, prefix));
      a := Listed(out);
    }

    method Search(substring: string) returns (a: Answer)
      requires Valid()
      ensures (raw.records, a) == Step(raw.records, tenant, Snapshot(), Op.Search(substring))
    {
      var out := KeepOwned(RawSearch(raw.records, substring));
      a := Matched(out);
    }

    method KeepOwnedKeys(keys: seq<string>) returns (out: seq<string>)
      requires Valid()
      ensures out == OwnedKeys(Snapshot(), tenant, raw.records, keys)
    {
      out := [];
      ghost var state, records := Snapshot(), raw.records;
      for i := 0 to |keys|
        invariant out + OwnedKeys(state, tenant, records, keys[i..]) == OwnedKeys(state, tenant, records, keys)
      {
        NextOwnedKey(state, tenant, records, keys, i, out);
        if TenantOf(keys[i]) != tenant {
          continue;
        }
        var record := RawGet(raw.records, keys[i]);
        if record.Some? && Owned(record.value, tenant) {
          var k := RedactText(keys[i]);
          out := out + [k];
        }
      }
    }

    method KeepOwned(hits: seq<Record>) returns (out: seq<Record>)
      requires Valid()
      ensures out == ScopedOwned(Snapshot(), tenant, hits)
    {
      out := [];
      ghost var state := Snapshot();
      for i := 0 to |hits|
        invariant out + ScopedOwned(state, tenant, hits[i..]) == ScopedOwned(state, tenant, hits)
      {
        NextOwned(state, tenant, hits, i, out);
        if Owned(hits[i], tenant) {
          var r := ScopedCopy(hits[i]);
          out := out + [r];
        }
      }
    }

    method RedactText(text: string) returns (r: string)
      requires Valid()
      ensures r == Redact(Snapshot(), text)
    {
      if scanner == null {
        return text;
      }
      var result := scanner.ScanText(text);
      r := result.redacted;
    }

    method ScopedCopy(record: Record) returns (r: Record)
      requires Valid()
      ensures r == Scoped(Snapshot(), record)
    {
      var content := RedactText(record.content);
      r := record.(content := content);
    }
  }

  lemma NextOwnedKey(scanner: Scanner, tenant: string, records: seq<Record>, keys: seq<string>, i: nat,
                     out: seq<string>)
    requires i < |keys|
    ensures out + OwnedKeys(scanner, tenant, records, keys[i..]) ==
            out + KeyIfOwned(scanner, tenant, records, keys[i]) + OwnedKeys(scanner, tenant, records, keys[i + 1..])
    ensures out + [] == out
  {
    assert keys[i..][1..] == keys[i + 1..];
    Associate(out, KeyIfOwned(scanner, tenant, records, keys[i]), OwnedKeys(scanner, tenant, records, keys[i + 1..]));
  }

  lemma NextOwned(scanner: Scanner, tenant: string, hits: seq<Record>, i: nat, out: seq<Record>)
    requires i < |hits|
    ensures out + ScopedOwned(scanner, tenant, hits[i..]) ==
            out + ScopedIfOwned(scanner, tenant, hits[i]) + ScopedOwned(scanner, tenant, hits[i + 1..])
    ensures out + [] == out
  {
    assert hits[i..][1..] == hits[i + 1..];
    Associate(out, ScopedIfOwned(scanner, tenant, hits[i]), ScopedOwned(scanner, tenant, hits[i + 1..]));
  }
}

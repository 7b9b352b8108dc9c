/**
 The output scanner: a table of secret encodings, grown by `Register` and used by `Scan`.
 The table is the program's insertion-ordered dictionary from an encoding to a category label.
 */
module OutputScanner {
  import opened Text
  import opened Redaction
  import opened BaseEncodings

  datatype Category = SecretBase64 | SecretHex | SecretValue

  datatype Entry = Entry(rep: string, category: Category)

  /** A dictionary with its insertion order: every key once. */
  type Table = seq<Entry>

  datatype ScanResult = ScanResult(redacted: string, detections: seq<Category>)

  // ---- the table -----------------------------------------------------------------------------

  function Keys(table: Table): seq<string> {
    seq(|table|, i requires 0 <= i < |table| => table[i].rep)
  }

  predicate DistinctKeys(table: Table) {
    forall i, j | 0 <= i < j < |table| :: table[i].rep != table[j].rep
  }

  predicate ValidTable(table: Table) {
    DistinctKeys(table) && "" !in Keys(table)
  }

  type GoodTable = t: Table | ValidTable(t) witness []

  /** `table[rep] = label`: a key that is there keeps its place. */
  function Put(table: Table, e: Entry): Table {
    if table == [] then [e]
    else if table[0].rep == e.rep then [e] + table[1..]
    else [table[0]] + Put(table[1..], e)
  }

  /** `table.update(entries)` */
  function Update(table: Table, entries: seq<Entry>): Table
    decreases |entries|
  {
    if entries == [] then table else Update(Put(table, entries[0]), entries[1..])
  }

  /** The seven representations of a value, in the order they are listed. */
  function Representations(value: string): seq<Entry> {
    var raw := Utf8.Encode(value);
    var std, url := Encode64(false, raw), Encode64(true, raw);
    [Entry(value, SecretValue),
     Entry(std, SecretBase64),
     Entry(StripPadding(std), SecretBase64),
     Entry(url, SecretBase64),
     Entry(StripPadding(url), SecretBase64),
     Entry(EncodeHex(false, raw), SecretHex),
     Entry(EncodeHex(true, raw), SecretHex)]
  }

  function NonEmpty(entries: seq<Entry>): seq<Entry> {
    if entries == [] then []
    else (if entries[0].rep == "" then [] else [entries[0]]) + NonEmpty(entries[1..])
  }

  /** The dictionary of a value's encodings, without empty ones. */
  function Encodings(value: string): Table {
    NonEmpty(Update([], Representations(value)))
  }

  /** What one value adds to the table. */
  function RegisterOne(table: Table, value: string): Table {
    if value == "" then table else Update(table, Encodings(value))
  }

  function RegisterAll(table: Table, values: seq<string>): Table
    decreases |values|
  {
    if values == [] then table else RegisterAll(RegisterOne(table, values[0]), values[1..])
  }

  /** `rep` is a representation of `value` that gets redacted. */
  predicate IsEncoding(rep: string, value: string) {
    && rep != ""
    && exists i | 0 <= i < 7 :: Representations(value)[i].rep == rep
  }

  // ---- the order of the passes ---------------------------------------------------------------

  function InsertByLength(x: string, xs: seq<string>): seq<string> {
    if xs == [] || |x| >= |xs[0]| then [x] + xs else [xs[0]] + InsertByLength(x, xs[1..])
  }

  /** `sorted(keys, key=len, reverse=True)`: longest first, equal lengths in table order. */
  function ByLength(keys: seq<string>): seq<string> {
    if keys == [] then [] else InsertByLength(keys[0], ByLength(keys[1..]))
  }

  /** The entries of one length, in the order they have. */
  function OfLength(keys: seq<string>, n: nat): seq<string> {
    if keys == [] then []
    else (if |keys[0]| == n then [keys[0]] else []) + OfLength(keys[1..], n)
  }

  function CategoryOf(table: Table, rep: string): Category
    requires rep in Keys(table)
  {
    if table[0].rep == rep then table[0].category
    else
      assert Keys(table)[1..] == Keys(table[1..]);
      CategoryOf(table[1..], rep)
  }

  // ---- scanning ------------------------------------------------------------------------------

  /** `sorted(categories)`, in the alphabetical order of the label texts. */
  function SortCategories(categories: set<Category>): seq<Category> {
    (if SecretBase64 in categories then [SecretBase64] else []) +
    (if SecretHex in categories then [SecretHex] else []) +
    (if SecretValue in categories then [SecretValue] else [])
  }

  function CategoriesOf(table: Table, reps: seq<string>): set<Category>
    requires forall r | r in reps :: r in Keys(table)
  {
    set r | r in reps :: CategoryOf(table, r)
  }

  /** The specification of a scan, as the passes over the sorted keys. */
  ghost function Scan(table: Table, text: string): ScanResult
    requires ValidTable(table)
  {
    var order := ByLength(Keys(table));
    ByLengthIsSort(Keys(table));
    HitsInOrder(order, text);
    ScanResult(Passes(order, text), SortCategories(CategoriesOf(table, Hits(order, text))))
  }

  class OutputScanner {
    var reps: Table

    ghost predicate Valid()
      reads this
    {
      ValidTable(reps)
    }

    constructor ()
      ensures Valid() && reps == []
    {
      reps := [];
    }

    method Register(values: seq<string>)
      requires Valid()
      modifies this
      ensures Valid()
      ensures reps == RegisterAll(old(reps), values)
    {
      for i := 0 to |values|
        invariant Valid()
        invariant RegisterAll(reps, values[i..]) == RegisterAll(old(reps), values)
      {
        RegisterOneValid(reps, values[i]);
        assert values[i..][1..] == values[i + 1..];
        if values[i] == "" {
          continue;
        }
        reps := Update(reps, Encodings(values[i]));
      }
    }

    /** Never changes the scanner. */
    method ScanText(text: string) returns (r: ScanResult)
      requires Valid()
      ensures r == Scan(reps, text)
    {
      var order := ByLength(Keys(reps));
      ByLengthIsSort(Keys(reps));
      var detections: set<Category> := {};
      var t := text;
      ghost var found := [];
      for i := 0 to |order|
        invariant "" !in order[i..] && forall h | h in found :: h in Keys(reps)
        invariant Passes(order[i..], t) == Passes(order, text)
        invariant found + Hits(order[i..], t) == Hits(order, text)
        invariant detections == CategoriesOf(reps, found)
      {
        var rep := order[i];
        assert rep in order;
        PassFirst(order[i..], t);
        assert order[i..][1..] == order[i + 1..];
        if rep != "" && Occurs(rep, t) {
          CategoriesAdd(reps, found, rep);
          found := found + [rep];
          detections := detections + {CategoryOf(reps, rep)};
          t := Replace(t, rep);
        }
      }
      assert found == Hits(order, text);
      HitsInOrder(order, text);
      r := ScanResult(t, SortCategories(detections));
    }
  }

  lemma PassFirst(order: seq<string>, t: string)
    requires order != [] && "" !in order
    ensures Passes(order, t) == Passes(order[1..], Replace(t, order[0]))
    ensures !Occurs(order[0], t) ==> Replace(t, order[0]) == t && Hits(order, t) == Hits(order[1..], t)
    ensures Occurs(order[0], t) ==>
              forall found: seq<string> ::
                found + Hits(order, t) == found + [order[0]] + Hits(order[1..], Replace(t, order[0]))
  {
  }

  lemma CategoriesAdd(table: Table, reps: seq<string>, rep: string)
    requires rep in Keys(table) && forall r | r in reps :: r in Keys(table)
    ensures forall r | r in reps + [rep] :: r in Keys(table)
    ensures CategoriesOf(table, reps + [rep]) == CategoriesOf(table, reps) + {CategoryOf(table, rep)}
  {
    assert forall r :: r in reps + [rep] <==> r in reps || r == rep;
  }

  // ---- the table holds exactly the encodings of the registered values ------------------------

  lemma KeysAt(table: Table, rep: string)
    ensures rep in Keys(table) <==> exists i | 0 <= i < |table| :: table[i].rep == rep
  {
    if rep in Keys(table) {
      var i :| 0 <= i < |table| && Keys(table)[i] == rep;
      assert table[i].rep == rep;
    }
    if i :| 0 <= i < |table| && table[i].rep == rep {
      assert Keys(table)[i] == rep;
    }
  }

  lemma KeysCons(e: Entry, table: Table)
    ensures Keys([e] + table) == [e.rep] + Keys(table)
  {
  }

  /** Storing an entry adds its key and no other, keeps the other places and replaces the label. */
  lemma {:induction false} PutKeys(table: Table, e: Entry)
    ensures forall r :: r in Keys(Put(table, e)) <==> r in Keys(table) || r == e.rep
    ensures e.rep in Keys(table) ==> Keys(Put(table, e)) == Keys(table)
    ensures e.rep !in Keys(table) ==> Put(table, e) == table + [e]
    ensures DistinctKeys(table) ==> DistinctKeys(Put(table, e))
  {
    if table == [] {
      assert Put(table, e) == [e] + table;
      KeysCons(e, table);
    } else {
      var first, rest := table[0], table[1..];
      assert table == [first] + rest;
      KeysCons(first, rest);
      if first.rep == e.rep {
        KeysCons(e, rest);
      } else {
        PutKeys(rest, e);
        KeysCons(first, Put(rest, e));
        if DistinctKeys(table) {
          assert DistinctKeys(rest);
          forall i | 0 <= i < |Put(rest, e)| ensures Put(rest, e)[i].rep != first.rep {
            assert Keys(Put(rest, e))[i] == Put(rest, e)[i].rep;
            KeysAt(rest, Put(rest, e)[i].rep);
          }
        }
      }
    }
  }

  /** A stored entry decides the category of its key and of no other. */
  lemma {:induction false} PutCategory(table: Table, e: Entry, rep: string)
    ensures e.rep in Keys(Put(table, e)) && CategoryOf(Put(table, e), e.rep) == e.category
    ensures rep in Keys(table) && rep != e.rep ==>
              rep in Keys(Put(table, e)) && CategoryOf(Put(table, e), rep) == CategoryOf(table, rep)
  {
    PutKeys(table, e);
    if table == [] {
    } else {
      assert table == [table[0]] + table[1..];
      KeysCons(table[0], table[1..]);
      if table[0].rep == e.rep {
        KeysCons(e, table[1..]);
        assert Put(table, e)[1..] == table[1..];
      } else {
        PutCategory(table[1..], e, rep);
        assert Put(table, e)[1..] == Put(table[1..], e);
      }
    }
  }

  lemma {:induction false} UpdateKeys(table: Table, entries: seq<Entry>)
    ensures forall r :: r in Keys(Update(table, entries)) <==> r in Keys(table) || r in Keys(entries)
    ensures DistinctKeys(table) ==> DistinctKeys(Update(table, entries))
    decreases |entries|
  {
    if entries == [] {
    } else {
      PutKeys(table, entries[0]);
      UpdateKeys(Put(table, entries[0]), entries[1..]);
      assert entries == [entries[0]] + entries[1..];
      KeysCons(entries[0], entries[1..]);
    }
  }

  lemma {:induction false} NonEmptyKeys(entries: seq<Entry>)
    ensures forall r :: r in Keys(NonEmpty(entries)) <==> r in Keys(entries) && r != ""
  {
    if entries == [] {
    } else {
      var first, rest := entries[0], entries[1..];
      assert entries == [first] + rest;
      KeysCons(first, rest);
      NonEmptyKeys(rest);
      KeysCons(first, NonEmpty(rest));
      assert [] + NonEmpty(rest) == NonEmpty(rest);
    }
  }

  lemma EncodingsKeys(value: string, rep: string)
    ensures rep in Keys(Encodings(value)) <==> IsEncoding(rep, value)
  {
    var all := Representations(value);
    UpdateKeys([], all);
    NonEmptyKeys(Update([], all));
    KeysAt(all, rep);
  }

  lemma EmptyHasNoEncodings(rep: string)
    ensures !IsEncoding(rep, "")
  {
    assert Utf8.Encode("") == [];
  }

  lemma RegisterOneKeys(table: Table, value: string, rep: string)
    ensures rep in Keys(RegisterOne(table, value)) <==> rep in Keys(table) || IsEncoding(rep, value)
  {
    if value == "" {
      EmptyHasNoEncodings(rep);
    } else {
      UpdateKeys(table, Encodings(value));
      EncodingsKeys(value, rep);
    }
  }

  lemma RegisterOneValid(table: Table, value: string)
    requires ValidTable(table)
    ensures ValidTable(RegisterOne(table, value))
  {
    UpdateKeys(table, Encodings(value));
    RegisterOneKeys(table, value, "");
  }

  /** A key of the table is an encoding of a value that was registered, and conversely. */
  lemma {:induction false} RegisteredExactly(table: Table, values: seq<string>, rep: string)
    ensures rep in Keys(RegisterAll(table, values)) <==>
            rep in Keys(table) || exists v | v in values :: IsEncoding(rep, v)
    decreases |values|
  {
    if values == [] {
    } else {
      RegisterOneKeys(table, values[0], rep);
      RegisteredExactly(RegisterOne(table, values[0]), values[1..], rep);
      assert forall v :: v in values <==> v == values[0] || v in values[1..];
    }
  }

  lemma {:induction false} RegisterAllValid(table: Table, values: seq<string>)
    requires ValidTable(table)
    ensures ValidTable(RegisterAll(table, values))
    decreases |values|
  {
    if values == [] {
    } else {
      RegisterOneValid(table, values[0]);
      RegisterAllValid(RegisterOne(table, values[0]), values[1..]);
    }
  }

  /** The table holds an entry: its key, under its category. */
  predicate Holds(table: Table, e: Entry) {
    e.rep in Keys(table) && CategoryOf(table, e.rep) == e.category
  }

  /** Storing what is there already changes nothing. */
  lemma {:induction false} PutKnown(table: Table, e: Entry)
    requires Holds(table, e)
    ensures Put(table, e) == table
  {
    assert table == [table[0]] + table[1..];
    KeysCons(table[0], table[1..]);
    if table[0].rep == e.rep {
      assert [e] + table[1..] == table;
    } else {
      PutKnown(table[1..], e);
    }
  }

  lemma {:induction false} UpdateKnown(table: Table, entries: seq<Entry>)
    requires forall e | e in entries :: Holds(table, e)
    ensures Update(table, entries) == table
    decreases |entries|
  {
    if entries == [] {
    } else {
      assert entries[0] in entries;
      PutKnown(table, entries[0]);
      UpdateKnown(table, entries[1..]);
    }
  }

  lemma {:induction false} UpdateKeepsOthers(table: Table, entries: seq<Entry>, e: Entry)
    requires Holds(table, e) && e.rep !in Keys(entries)
    ensures Holds(Update(table, entries), e)
    decreases |entries|
  {
    if entries == [] {
    } else {
      assert entries == [entries[0]] + entries[1..];
      KeysCons(entries[0], entries[1..]);
      PutCategory(table, entries[0], e.rep);
      UpdateKeepsOthers(Put(table, entries[0]), entries[1..], e);
    }
  }

  /** After an update with a dictionary the table holds all of its entries. */
  lemma {:induction false} UpdateHolds(table: Table, entries: seq<Entry>)
    requires DistinctKeys(entries)
    ensures forall e | e in entries :: Holds(Update(table, entries), e)
    decreases |entries|
  {
    if entries == [] {
    } else {
      var first, rest := entries[0], entries[1..];
      assert entries == [first] + rest;
      DistinctCons(first, rest);
      PutCategory(table, first, first.rep);
      UpdateKeepsOthers(Put(table, first), rest, first);
      UpdateHolds(Put(table, first), rest);
    }
  }

  lemma DistinctCons(e: Entry, table: Table)
    ensures DistinctKeys([e] + table) <==> DistinctKeys(table) && e.rep !in Keys(table)
  {
    var all := [e] + table;
    if DistinctKeys(all) {
      forall i, j | 0 <= i < j < |table| ensures table[i].rep != table[j].rep {
        assert all[i + 1].rep != all[j + 1].rep;
      }
      forall i | 0 <= i < |table| ensures table[i].rep != e.rep {
        assert all[0].rep != all[i + 1].rep;
      }
      KeysAt(table, e.rep);
    }
    if e.rep !in Keys(table) {
      forall i | 0 <= i < |table| ensures table[i].rep != e.rep {
        assert Keys(table)[i] == table[i].rep;
      }
    }
  }

  lemma {:induction false} NonEmptyDistinct(entries: seq<Entry>)
    requires DistinctKeys(entries)
    ensures DistinctKeys(NonEmpty(entries))
  {
    if entries == [] {
    } else {
      var first, rest := entries[0], entries[1..];
      assert entries == [first] + rest;
      DistinctCons(first, rest);
      NonEmptyDistinct(rest);
      NonEmptyKeys(rest);
      DistinctCons(first, NonEmpty(rest));
      assert [] + NonEmpty(rest) == NonEmpty(rest);
    }
  }

  /** Registering a value again leaves the whole table as it is. */
  lemma RegisterIdempotent(table: Table, value: string)
    ensures RegisterOne(RegisterOne(table, value), value) == RegisterOne(table, value)
  {
    if value != "" {
      UpdateKeys([], Representations(value));
      NonEmptyDistinct(Update([], Representations(value)));
      UpdateHolds(table, Encodings(value));
      UpdateKnown(RegisterOne(table, value), Encodings(value));
    }
  }

  // ---- the sort ------------------------------------------------------------------------------

  lemma {:induction false} InsertIsPermutation(x: string, xs: seq<string>)
    ensures multiset(InsertByLength(x, xs)) == multiset{x} + multiset(xs)
  {
    if xs == [] {
    } else {
      assert xs == [xs[0]] + xs[1..];
      InsertIsPermutation(x, xs[1..]);
    }
  }

  lemma LongestFirstCons(x: string, xs: seq<string>)
    ensures LongestFirst([x] + xs) <==> LongestFirst(xs) && (xs != [] ==> |x| >= |xs[0]|)
  {
    var all := [x] + xs;
    if LongestFirst(all) {
      forall i, j | 0 <= i < j < |xs| ensures |xs[i]| >= |xs[j]| {
        assert |all[i + 1]| >= |all[j + 1]|;
      }
      if xs != [] { assert |all[0]| >= |all[1]|; }
    }
  }

  lemma {:induction false} InsertIsSorted(x: string, xs: seq<string>)
    requires LongestFirst(xs)
    ensures LongestFirst(InsertByLength(x, xs))
    ensures InsertByLength(x, xs) != []
    ensures |InsertByLength(x, xs)[0]| <= |x| || (xs != [] && InsertByLength(x, xs)[0] == xs[0])
  {
    LongestFirstCons(x, xs);
    if xs == [] {
    } else {
      assert xs == [xs[0]] + xs[1..];
      LongestFirstCons(xs[0], xs[1..]);
      InsertIsSorted(x, xs[1..]);
      LongestFirstCons(xs[0], InsertByLength(x, xs[1..]));
    }
  }

  lemma {:induction false} InsertIsStable(x: string, xs: seq<string>, n: nat)
    ensures OfLength(InsertByLength(x, xs), n) == OfLength([x] + xs, n)
  {
    assert ([x] + xs)[1..] == xs;
    if xs == [] || |x| >= |xs[0]| {
    } else {
      InsertIsStable(x, xs[1..], n);
      var tail := InsertByLength(x, xs[1..]);
      assert ([xs[0]] + tail)[1..] == tail;
      assert ([x] + xs[1..])[1..] == xs[1..];
    }
  }

  lemma {:induction false} ByLengthIsPermutation(keys: seq<string>)
    ensures LongestFirst(ByLength(keys))
    ensures multiset(ByLength(keys)) == multiset(keys)
  {
    if keys == [] {
    } else {
      ByLengthIsPermutation(keys[1..]);
      InsertIsSorted(keys[0], ByLength(keys[1..]));
      InsertIsPermutation(keys[0], ByLength(keys[1..]));
      assert keys == [keys[0]] + keys[1..];
    }
  }

  lemma OfLengthCons(x: string, xs: seq<string>, n: nat)
    ensures OfLength([x] + xs, n) == (if |x| == n then [x] else []) + OfLength(xs, n)
  {
    assert ([x] + xs)[1..] == xs;
  }

  lemma {:induction false} ByLengthIsStable(keys: seq<string>, n: nat)
    ensures OfLength(ByLength(keys), n) == OfLength(keys, n)
  {
    if keys == [] {
    } else {
      ByLengthIsStable(keys[1..], n);
      InsertIsStable(keys[0], ByLength(keys[1..]), n);
      OfLengthCons(keys[0], ByLength(keys[1..]), n);
    }
  }

  /** The order of the passes: a longest-first permutation that keeps ties in table order. */
  lemma ByLengthIsSort(keys: seq<string>)
    ensures LongestFirst(ByLength(keys))
    ensures multiset(ByLength(keys)) == multiset(keys)
    ensures forall r :: r in ByLength(keys) <==> r in keys
    ensures forall n: nat :: OfLength(ByLength(keys), n) == OfLength(keys, n)
  {
    ByLengthIsPermutation(keys);
    SameMembers(ByLength(keys), keys);
    forall n: nat { ByLengthIsStable(keys, n); }
  }

  lemma SameMembers(a: seq<string>, b: seq<string>)
    requires multiset(a) == multiset(b)
    ensures forall r :: r in a <==> r in b
  {
    forall r ensures r in a <==> r in b {
      assert r in multiset(a) <==> r in multiset(b);
    }
  }

  lemma {:induction false} HitsInOrder(order: seq<string>, t: string)
    requires "" !in order
    ensures forall h | h in Hits(order, t) :: h in order
  {
    if order == [] {
    } else {
      HitsInOrder(order[1..], Replace(t, order[0]));
    }
  }
}

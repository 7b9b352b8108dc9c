/**
 Which texts are encodings of a secret, and under which label they are known, told by decoders alone:
 nothing here looks at how the table is built.
 */
module Forms {
  import opened Utf8
  import opened BaseEncodings
  import opened OutputScanner
  import opened ScannerGuarantees

  /** The text is base64 of the bytes in one of the alphabets, with all its padding or with none. */
  predicate Base64Form(raw: seq<Byte>, rep: string) {
    (Decode64(false, rep) == Some(raw) || Decode64(true, rep) == Some(raw)) && (Padded(rep) || Unpadded(rep))
  }

  /** The text is hexadecimal of the bytes, with letters of one case. */
  predicate HexForm(raw: seq<Byte>, rep: string) {
    DecodeHex(rep) == Some(raw) && (HexCase(false, rep) || HexCase(true, rep))
  }

  /** What each of the seven places of the list holds. */
  lemma RepresentationsExactly(value: string, rep: string)
    ensures var reps := Representations(value); var raw := Utf8.Encode(value);
            && |reps| == 7
            && (reps[0].rep == rep <==> rep == value)
            && (reps[1].rep == rep <==> Decode64(false, rep) == Some(raw) && Padded(rep))
            && (reps[2].rep == rep <==> Decode64(false, rep) == Some(raw) && Unpadded(rep))
            && (reps[3].rep == rep <==> Decode64(true, rep) == Some(raw) && Padded(rep))
            && (reps[4].rep == rep <==> Decode64(true, rep) == Some(raw) && Unpadded(rep))
            && (reps[5].rep == rep <==> DecodeHex(rep) == Some(raw) && HexCase(false, rep))
            && (reps[6].rep == rep <==> DecodeHex(rep) == Some(raw) && HexCase(true, rep))
  {
    var raw := Utf8.Encode(value);
    Base64Exactly(false, raw, rep);
    Base64Exactly(true, raw, rep);
    HexExactly(false, raw, rep);
    HexExactly(true, raw, rep);
  }

  /** The encodings that a value brings into the table are the value itself and whatever decodes to
      its bytes: base64 in either alphabet, padded or not, and hexadecimal in either case. */
  lemma EncodingsAreForms(value: string, rep: string)
    ensures IsEncoding(rep, value) <==>
            value != "" && (rep == value || Base64Form(Utf8.Encode(value), rep) || HexForm(Utf8.Encode(value), rep))
  {
    RepresentationsExactly(value, rep);
    if value == "" {
      EmptyHasNoEncodings(rep);
    } else {
      EncodeLength(value);
      var reps := Representations(value);
      assert IsEncoding(rep, value) <==> (rep != "" &&
        (reps[0].rep == rep || reps[1].rep == rep || reps[2].rep == rep || reps[3].rep == rep
         || reps[4].rep == rep || reps[5].rep == rep || reps[6].rep == rep));
    }
  }

  // ---- labels --------------------------------------------------------------------------------

  /** An entry whose later namesakes carry the same label decides the label of its key. */
  lemma {:induction false} UpdateLabel(table: Table, entries: seq<Entry>, i: nat)
    requires i < |entries|
    requires forall j | i <= j < |entries| && entries[j].rep == entries[i].rep ::
               entries[j].category == entries[i].category
    ensures Holds(Update(table, entries), entries[i])
    decreases |entries|
  {
    var first, rest := entries[0], entries[1..];
    if i > 0 {
      UpdateLabel(Put(table, first), rest, i - 1);
    } else {
      KeysAt(rest, first.rep);
      if j :| 0 <= j < |rest| && rest[j].rep == first.rep {
        UpdateLabel(Put(table, first), rest, j);
        assert rest[j] == first;
      } else {
        PutCategory(table, first, first.rep);
        UpdateKeepsOthers(Put(table, first), rest, first);
      }
    }
  }

  lemma {:induction false} NonEmptyHolds(entries: seq<Entry>, e: Entry)
    requires DistinctKeys(entries) && Holds(entries, e) && e.rep != ""
    ensures e in NonEmpty(entries)
  {
    var first, rest := entries[0], entries[1..];
    assert entries == [first] + rest;
    KeysCons(first, rest);
    DistinctCons(first, rest);
    if first.rep == e.rep {
      assert first == e;
    } else {
      NonEmptyHolds(rest, e);
    }
  }

  /** The label a text gets from a value it is an encoding of. */
  function LabelOf(value: string, rep: string): Category {
    if rep == value then SecretValue
    else if HexForm(Utf8.Encode(value), rep) then SecretHex
    else SecretBase64
  }

  lemma EncodingLabel(value: string, rep: string)
    requires IsEncoding(rep, value)
    ensures Entry(rep, LabelOf(value, rep)) in Encodings(value)
  {
    if value == "" { EmptyHasNoEncodings(rep); }
    OthersDiffer(value);
    RepresentationsExactly(value, rep);
    PlaceLabels(value);
    LabelAmong(Representations(value), value, rep);
  }

  lemma OthersDiffer(value: string)
    requires value != ""
    ensures forall j | 1 <= j < 7 :: Representations(value)[j].rep != value
  {
    forall j | 1 <= j < 7 ensures Representations(value)[j].rep != value {
      EncodingsShape(value, j);
    }
  }

  lemma PlaceLabels(value: string)
    ensures |Representations(value)| == 7
    ensures forall k | 0 <= k < 7 :: Representations(value)[k].category == PlaceLabel(k)
  {
  }

  lemma LabelAmong(reps: seq<Entry>, value: string, rep: string)
    requires |reps| == 7 && rep != "" && exists k | 0 <= k < 7 :: reps[k].rep == rep
    requires forall k | 0 <= k < 7 :: reps[k].category == PlaceLabel(k)
    requires (reps[0].rep == rep <==> rep == value) && forall k | 1 <= k < 7 :: reps[k].rep != value
    requires HexForm(Utf8.Encode(value), rep) <==> reps[5].rep == rep || reps[6].rep == rep
    ensures Entry(rep, LabelOf(value, rep)) in NonEmpty(Update([], reps))
  {
    var i := LabelledPlace(reps, rep, rep == value, HexForm(Utf8.Encode(value), rep));
    LabelKept(reps, i);
  }

  lemma LabelKept(entries: seq<Entry>, i: nat)
    requires i < |entries| && entries[i].rep != ""
    requires forall j | i <= j < |entries| && entries[j].rep == entries[i].rep ::
               entries[j].category == entries[i].category
    ensures entries[i] in NonEmpty(Update([], entries))
  {
    UpdateLabel([], entries, i);
    UpdateKeys([], entries);
    NonEmptyHolds(Update([], entries), entries[i]);
  }

  /** A list of seven places labelled as they are: the last place of a text has its label. */
  lemma LabelledPlace(reps: seq<Entry>, rep: string, raw: bool, hex: bool) returns (i: nat)
    requires |reps| == 7 && exists k | 0 <= k < 7 :: reps[k].rep == rep
    requires forall k | 0 <= k < 7 :: reps[k].category == PlaceLabel(k)
    requires reps[0].rep == rep <==> raw
    requires raw ==> forall k | 1 <= k < 7 :: reps[k].rep != rep
    requires hex <==> reps[5].rep == rep || reps[6].rep == rep
    ensures i < 7 && reps[i] == Entry(rep, if raw then SecretValue else if hex then SecretHex else SecretBase64)
    ensures forall j | i <= j < 7 && reps[j].rep == rep :: reps[j].category == reps[i].category
  {
    i := if raw then 0 else if reps[6].rep == rep then 6 else if reps[5].rep == rep then 5
    else if reps[4].rep == rep then 4 else if reps[3].rep == rep then 3 else if reps[2].rep == rep then 2 else 1;
  }

  function PlaceLabel(k: nat): Category {
    if k == 0 then SecretValue else if k <= 4 then SecretBase64 else SecretHex
  }

  lemma {:induction false} RegisterLast(table: Table, values: seq<string>, v: string)
    ensures RegisterAll(table, values + [v]) == RegisterOne(RegisterAll(table, values), v)
    decreases |values|
  {
    if values == [] {
      assert values + [v] == [v] && [v][1..] == [];
      assert RegisterAll(table, [v]) == RegisterAll(RegisterOne(table, v), []);
    } else {
      assert (values + [v])[1..] == values[1..] + [v];
      RegisterLast(RegisterOne(table, values[0]), values[1..], v);
    }
  }

  /** The value registered last labels its encodings: the value itself as a value, what decodes as
      hexadecimal as that, the rest as base64. All other labels stay. */
  lemma LabelsExactly(table: Table, values: seq<string>, v: string, rep: string)
    ensures IsEncoding(rep, v) ==> Holds(RegisterAll(table, values + [v]), Entry(rep, LabelOf(v, rep)))
    ensures rep in Keys(RegisterAll(table, values)) && !IsEncoding(rep, v) ==>
              Holds(RegisterAll(table, values + [v]), Entry(rep, CategoryOf(RegisterAll(table, values), rep)))
  {
    RegisterLast(table, values, v);
    var before := RegisterAll(table, values);
    if IsEncoding(rep, v) {
      if v == "" { EmptyHasNoEncodings(rep); }
      EncodingLabel(v, rep);
      UpdateKeys([], Representations(v));
      NonEmptyDistinct(Update([], Representations(v)));
      UpdateHolds(before, Encodings(v));
    } else if rep in Keys(before) {
      EncodingsKeys(v, rep);
      UpdateKeepsOthers(before, Encodings(v), Entry(rep, CategoryOf(before, rep)));
    }
  }
}

/** What the scanner promises: completeness, exactness, no fragments, harmless rescans, and the
    conditions on secrets under which it can promise them. */
module ScannerGuarantees {
  import opened Text
  import opened Redaction
  import opened Utf8
  import opened BaseEncodings
  import opened OutputScanner

  predicate SafeTable(table: Table) {
    AllSafe(Keys(table))
  }

  /** A secret none of whose encodings can overlap the marker. */
  ghost predicate SafeSecret(value: string) {
    forall rep | IsEncoding(rep, value) :: MarkerSafe(rep)
  }

  /** No encoding of `value` is anywhere in `text`. */
  ghost predicate Hidden(value: string, text: string) {
    forall rep | IsEncoding(rep, value) :: !Occurs(rep, text)
  }

  // ---- completeness --------------------------------------------------------------------------

  lemma OrderOf(table: Table)
    requires ValidTable(table)
    ensures "" !in ByLength(Keys(table)) && LongestFirst(ByLength(Keys(table)))
    ensures forall r :: r in ByLength(Keys(table)) <==> r in Keys(table)
  {
    ByLengthIsSort(Keys(table));
  }

  /** No safe encoding in the table survives a scan, on any text, whatever else the table holds. */
  lemma ScanComplete(table: Table, text: string)
    requires ValidTable(table)
    ensures forall rep | rep in Keys(table) && MarkerSafe(rep) :: !Occurs(rep, Scan(table, text).redacted)
  {
    OrderOf(table);
    forall rep | rep in Keys(table) && MarkerSafe(rep) ensures !Occurs(rep, Scan(table, text).redacted) {
      PassesRemove(ByLength(Keys(table)), text, rep);
    }
  }

  /** After any history of registrations, of unsafe secrets too, a scan hides every safe one. */
  lemma HistoryHidden(values: seq<string>, text: string)
    ensures ValidTable(RegisterAll([], values))
    ensures forall v | v in values && SafeSecret(v) :: Hidden(v, Scan(RegisterAll([], values), text).redacted)
  {
    RegisterAllValid([], values);
    var table := RegisterAll([], values);
    ScanComplete(table, text);
    forall v, rep | v in values && SafeSecret(v) && IsEncoding(rep, v)
      ensures !Occurs(rep, Scan(table, text).redacted)
    {
      RegisteredExactly([], values, rep);
    }
  }

  /** Some safe key lies inside `rep`. */
  predicate Guarded(keys: seq<string>, rep: string) {
    exists q | q in keys :: MarkerSafe(q) && Occurs(q, rep)
  }

  predicate AllGuarded(table: Table) {
    forall rep | rep in Keys(table) :: Guarded(Keys(table), rep)
  }

  lemma SafeIsGuarded(keys: seq<string>, rep: string)
    requires rep in keys && MarkerSafe(rep)
    ensures Guarded(keys, rep)
  {
    OccursInItself(rep);
  }

  /** An unsafe encoding is hidden too where a safe one of the table lies inside it. */
  lemma GuardedHidden(table: Table, rep: string, text: string)
    requires ValidTable(table) && Guarded(Keys(table), rep)
    ensures !Occurs(rep, Scan(table, text).redacted)
  {
    var out := Scan(table, text).redacted;
    var q :| q in Keys(table) && MarkerSafe(q) && Occurs(q, rep);
    ScanComplete(table, text);
    if Occurs(rep, out) { OccursTransitive(q, rep, out); }
  }

  // ---- exactness -----------------------------------------------------------------------------

  /** The pieces a scan cuts a text into. */
  function Pieces(table: Table, text: string): seq<Piece>
    requires ValidTable(table)
  {
    OrderOf(table);
    Cut(ByLength(Keys(table)), text)
  }

  /** The scan is one simultaneous substitution: the text is cut into kept stretches and table
      encodings, and the output is the same pieces with one marker for each encoding. */
  lemma ScanSubstitutes(table: Table, text: string)
    requires ValidTable(table) && SafeTable(table)
    ensures var pieces := Pieces(table, text);
            && Source(pieces) == text
            && Target(pieces) == Scan(table, text).redacted
            && (forall x | x in pieces && x.Redacted? :: x.text in Keys(table))
            && (forall x, rep | x in pieces && x.Kept? && rep in Keys(table) :: !Occurs(rep, x.text))
  {
    OrderOf(table);
    var order := ByLength(Keys(table));
    var pieces := Pieces(table, text);
    CutPartitions(order, text);
    PassesAreOneSubstitution(order, text);
    ScanComplete(table, text);
    forall x, rep | x in pieces && x.Kept? && rep in Keys(table) ensures !Occurs(rep, x.text) {
      if Occurs(rep, x.text) {
        PieceInTarget(pieces, x);
        OccursTransitive(rep, x.text, Target(pieces));
      }
    }
  }

  lemma PieceInTarget(pieces: seq<Piece>, x: Piece)
    requires x in pieces
    ensures Occurs(x.Shown(), Target(pieces))
  {
    var i :| 0 <= i < |pieces| && pieces[i] == x;
    assert pieces == pieces[..i] + [x] + pieces[i + 1..];
    PiecesAround(pieces[..i], x, pieces[i + 1..]);
    OccursInItself(x.Shown());
    OccursInPart(x.Shown(), Target(pieces[..i]), x.Shown(), Target(pieces[i + 1..]));
  }

  /** Text with no encoding in it is untouched, and that is exactly when nothing is detected. */
  lemma DetectionsEmpty(table: Table, text: string)
    requires ValidTable(table)
    ensures Scan(table, text).detections == [] <==> forall rep | rep in Keys(table) :: !Occurs(rep, text)
    ensures Scan(table, text).detections == [] ==> Scan(table, text).redacted == text
  {
    OrderOf(table);
    var order := ByLength(Keys(table));
    NoHits(order, text);
    HitsInOrder(order, text);
    var hits := Hits(order, text);
    if hits != [] {
      SortedHasAll(CategoriesOf(table, hits), CategoryOf(table, hits[0]));
    } else {
      assert CategoriesOf(table, hits) == {};
    }
  }

  function Rank(c: Category): int {
    match c case SecretBase64 => 0 case SecretHex => 1 case SecretValue => 2
  }

  /** The reported list has each category once, in the order of the label texts. */
  lemma SortedHasAll(categories: set<Category>, c: Category)
    ensures c in SortCategories(categories) <==> c in categories
    ensures forall i, j | 0 <= i < j < |SortCategories(categories)| ::
              Rank(SortCategories(categories)[i]) < Rank(SortCategories(categories)[j])
  {
    match c
    case SecretBase64 => assert c in categories ==> SortCategories(categories)[0] == c;
    case SecretHex =>
    case SecretValue => assert c in categories ==> SortCategories(categories)[|SortCategories(categories)| - 1] == c;
  }

  /** The reported categories are exactly those of the redacted pieces, each of which is an encoding
      that the scanned text contained. */
  lemma DetectionsExactly(table: Table, text: string, c: Category)
    requires ValidTable(table) && SafeTable(table)
    ensures forall x | x in Pieces(table, text) && x.Redacted? :: x.text in Keys(table) && Occurs(x.text, text)
    ensures c in Scan(table, text).detections <==>
            exists x | x in Pieces(table, text) && x.Redacted? && x.text in Keys(table) ::
              CategoryOf(table, x.text) == c
  {
    OrderOf(table);
    var order := ByLength(Keys(table));
    HitsInOrder(order, text);
    SortedHasAll(CategoriesOf(table, Hits(order, text)), c);
    CutPartitions(order, text);
    forall x | x in Pieces(table, text) && x.Redacted?
      ensures x.text in Hits(order, text) && Occurs(x.text, text)
    {
      assert x == Redacted(x.text);
      HitsAreRedacted(order, text, x.text);
      HitsWereThere(order, text, x.text);
    }
    forall rep | rep in Hits(order, text) ensures Redacted(rep) in Pieces(table, text) {
      HitsAreRedacted(order, text, rep);
    }
  }

  /** Scanning a scanned text changes nothing and detects nothing. */
  lemma RescanHarmless(table: Table, text: string)
    requires ValidTable(table) && SafeTable(table)
    ensures Scan(table, Scan(table, text).redacted) == ScanResult(Scan(table, text).redacted, [])
  {
    ScanComplete(table, text);
    DetectionsEmpty(table, Scan(table, text).redacted);
  }

  /** Encodings joined by separators foreign to them: the scan gives the separators back with one
      whole marker per encoding, also where one encoding contains another. */
  lemma ScanLeavesNoFragments(table: Table, head: string, items: seq<Item>)
    requires ValidTable(table) && SafeTable(table)
    requires Foreign(Keys(table), head) && Separated(Keys(table), items)
    ensures Scan(table, Joined(head, items)).redacted == Masked(head, items)
  {
    OrderOf(table);
    var order := ByLength(Keys(table));
    assert forall k | 0 <= k < |items| :: Foreign(Keys(table), items[k].after);
    NoFragments(order, head, items);
  }

  // ---- exactly when --------------------------------------------------------------------------

  predicate BracketFree(s: string) {
    '[' !in s && ']' !in s
  }

  ghost predicate RedactsCompletely(table: Table)
    requires ValidTable(table)
  {
    forall rep, text: string :: rep in Keys(table) ==> !Occurs(rep, Scan(table, text).redacted)
  }

  lemma {:induction false} HitLeavesMarker(order: seq<string>, t: string)
    requires "" !in order && Hits(order, t) != []
    ensures Occurs(MARKER, Passes(order, t))
  {
    var next := Replace(t, order[0]);
    if Hits(order[1..], next) != [] {
      HitLeavesMarker(order[1..], next);
    } else {
      NoHits(order[1..], next);
      var left, rest := SplitAtFind(t, order[0]);
      OccursInItself(MARKER);
      OccursInPart(MARKER, left, MARKER, Replace(rest, order[0]));
    }
  }

  /** Without brackets the only way to overlap the marker is to lie inside its word. */
  lemma BracketFreeSafety(p: string)
    requires p != "" && BracketFree(p)
    ensures MarkerSafe(p) <==> !Occurs(p, "REDACTED")
  {
    if Occurs(p, "REDACTED") {
      InsideWord(p);
      assert !Avoids(p, MARKER);
    } else {
      forall d | -|p| < d < |MARKER| ensures !Agrees(p, MARKER, d) {
        MeetsBracket(p, d);
      }
    }
  }

  lemma InsideWord(p: string)
    requires p != "" && Occurs(p, "REDACTED")
    ensures exists d :: -|p| < d < |MARKER| && Agrees(p, MARKER, d)
  {
    var i :| 0 <= i <= |"REDACTED"| && At("REDACTED", i, p);
    AtIsPointwise("REDACTED", i, p);
    forall k | 0 <= k < |p| ensures p[k] == MARKER[k + i + 1] {
      assert MARKER[1..9] == "REDACTED";
      assert MARKER[1..9][i + k] == p[k];
    }
    assert Agrees(p, MARKER, i + 1);
  }

  lemma MeetsBracket(p: string, d: int)
    requires BracketFree(p) && !Occurs(p, "REDACTED") && -|p| < d < |MARKER|
    ensures !Agrees(p, MARKER, d)
  {
    if d <= 0 {
      assert p[-d] in p && MARKER[0] == '[';
    } else if d + |p| >= |MARKER| {
      assert p[9 - d] in p && MARKER[9] == ']';
    } else {
      assert !At("REDACTED", d - 1, p);
      AtIsPointwise("REDACTED", d - 1, p);
      assert MARKER[1..9] == "REDACTED";
      var k :| 0 <= k < |p| && "REDACTED"[d - 1 + k] != p[k];
      assert MARKER[1..9][d - 1 + k] == MARKER[d + k];
    }
  }

  /** A key that lies inside the marker can overlap it. */
  lemma InsideMarkerUnsafe(rep: string)
    requires rep != "" && Occurs(rep, MARKER)
    ensures !MarkerSafe(rep)
  {
    if MarkerSafe(rep) { SafeNotInMarker(rep); }
  }

  /** For a table whose keys, as far as no safe key lies inside them, lie inside the marker: every
      scan is complete exactly when all keys have a safe key inside them. The failing text is the
      key itself. */
  lemma CompleteExactlyWhen(table: Table)
    requires ValidTable(table)
    requires forall rep | rep in Keys(table) :: Guarded(Keys(table), rep) || Occurs(rep, MARKER)
    ensures RedactsCompletely(table) <==> AllGuarded(table)
  {
    if AllGuarded(table) {
      forall rep, text: string | rep in Keys(table) ensures !Occurs(rep, Scan(table, text).redacted) {
        GuardedHidden(table, rep, text);
      }
    } else {
      var rep :| rep in Keys(table) && !Guarded(Keys(table), rep);
      KeyInMarkerSurvives(table, rep);
    }
  }

  /** Whatever else is registered, a key that occurs in the marker survives the scan of itself. */
  lemma KeyInMarkerSurvives(table: Table, rep: string)
    requires ValidTable(table) && rep in Keys(table) && Occurs(rep, MARKER)
    ensures Occurs(rep, Scan(table, rep).redacted)
  {
    OrderOf(table);
    var order := ByLength(Keys(table));
    OccursInItself(rep);
    NoHits(order, rep);
    HitLeavesMarker(order, rep);
    OccursTransitive(rep, MARKER, Scan(table, rep).redacted);
  }

  lemma WordInMarker(rep: string)
    requires Occurs(rep, "REDACTED")
    ensures Occurs(rep, MARKER)
  {
    assert MARKER == "[" + "REDACTED" + "]";
    OccursInPart(rep, "[", "REDACTED", "]");
  }

  // ---- encodings -----------------------------------------------------------------------------

  /** The six machine encodings decode to the secret's bytes, and these to the secret. */
  lemma EncodingsFaithful(value: string)
    ensures var reps := Representations(value); var raw := Utf8.Encode(value);
            && (forall i | 1 <= i <= 2 :: Decode64(false, reps[i].rep) == Some(raw))
            && (forall i | 3 <= i <= 4 :: Decode64(true, reps[i].rep) == Some(raw))
            && (forall i | 5 <= i <= 6 :: DecodeHex(reps[i].rep) == Some(raw))
            && Utf8.Decode(raw) == value
  {
    var raw := Utf8.Encode(value);
    Decode64UndoesEncode64(false, raw);
    Decode64UndoesEncode64(true, raw);
    DecodeHexUndoesEncodeHex(false, raw);
    DecodeHexUndoesEncodeHex(true, raw);
    EncodeRoundTrip(value);
  }

  /** Every machine encoding is strictly longer than the secret, and free of brackets. */
  lemma EncodingsShape(value: string, i: int)
    requires value != "" && 1 <= i < 7
    ensures |Representations(value)[i].rep| > |value|
    ensures BracketFree(Representations(value)[i].rep)
    ensures forall c | c in Representations(value)[i].rep :: c > ' '
  {
    var raw := Utf8.Encode(value);
    EncodeLength(value);
    Encode64Shape(false, raw);
    Encode64Shape(true, raw);
    EncodeHexShape(false, raw);
    EncodeHexShape(true, raw);
    PlainDigits();
  }

  /** Digits are printable and no brackets. */
  lemma PlainDigits()
    ensures forall url, c | Value(url, c).Some? :: c != '[' && c != ']' && c > ' '
    ensures forall c | HexValue(c).Some? :: c != '[' && c != ']' && c > ' '
  {
  }

  lemma BracketFreeEncodings(value: string, rep: string)
    requires IsEncoding(rep, value)
    ensures rep == value || (BracketFree(rep) && |rep| > |value| && forall c | c in rep :: c > ' ')
  {
    var i :| 0 <= i < 7 && Representations(value)[i].rep == rep;
    if value == "" {
      EmptyHasNoEncodings(rep);
    } else if i > 0 {
      EncodingsShape(value, i);
    }
  }

  /** A bracket-free secret of at least nine characters is safe, whatever its characters are. */
  lemma NineCharactersSuffice(value: string)
    requires BracketFree(value) && |value| >= 9
    ensures SafeSecret(value)
  {
    forall rep | IsEncoding(rep, value) ensures MarkerSafe(rep) {
      BracketFreeEncodings(value, rep);
      BracketFreeSafety(rep);
      if Occurs(rep, "REDACTED") { OccursNeedsRoom(rep, "REDACTED"); }
    }
  }

  /** A secret is safe exactly when it cannot overlap the marker itself and no encoding of it lies
      inside the marker's word. */
  lemma SafeSecretExactly(value: string)
    ensures SafeSecret(value) <==> (value == "" || MarkerSafe(value)) && Hidden(value, "REDACTED")
  {
    forall rep | IsEncoding(rep, value)
      ensures MarkerSafe(rep) ==> !Occurs(rep, "REDACTED")
      ensures rep != value && !Occurs(rep, "REDACTED") ==> MarkerSafe(rep)
    {
      BracketFreeEncodings(value, rep);
      if Occurs(rep, "REDACTED") {
        WordInMarker(rep);
        InsideMarkerUnsafe(rep);
      } else if rep != value {
        BracketFreeSafety(rep);
      }
    }
    if value != "" { assert Representations(value)[0].rep == value; }
  }

  /** A registered secret with an encoding inside the marker is never fully redacted. */
  lemma SecretInMarkerSurvives(values: seq<string>, value: string, rep: string)
    requires value in values && IsEncoding(rep, value) && Occurs(rep, MARKER)
    ensures ValidTable(RegisterAll([], values))
    ensures Occurs(rep, Scan(RegisterAll([], values), rep).redacted)
  {
    RegisterAllValid([], values);
    RegisteredExactly([], values, rep);
    KeyInMarkerSurvives(RegisterAll([], values), rep);
  }

  /** Nine is not an idle bound: a one-character secret outside the marker's alphabet, the form
      feed, has an encoding inside the marker, so it survives in every history it is part of. */
  lemma ShortSecretSurvives(values: seq<string>)
    requires "\U{000C}" in values
    ensures IsEncoding("DA", "\U{000C}")
    ensures ValidTable(RegisterAll([], values))
    ensures Occurs("DA", Scan(RegisterAll([], values), "DA").redacted)
  {
    FormFeedEncodes();
    AtIsPointwise("REDACTED", 2, "DA");
    WordInMarker("DA");
    SecretInMarkerSurvives(values, "\U{000C}", "DA");
  }

  lemma FormFeedEncodes()
    ensures IsEncoding("DA", "\U{000C}")
  {
    var v := "\U{000C}";
    assert Utf8.Encode(v) == EncodeChar(v[0]) + Utf8.Encode(v[1..]) == [12];
    StrippedIsDigits(false, [12]);
    assert Sextets([12]) == [3, 0];
    assert Digits(false, [3, 0]) == "DA";
    assert Representations(v)[2].rep == "DA";
  }
}

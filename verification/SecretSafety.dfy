/**
 Which secrets the scanner can promise to hide. The answer is about what can really be registered:
 histories of values, each of which brings all of its encodings along.
 */
module SecretSafety {
  import opened Sequences
  import opened Text
  import opened Redaction
  import opened Utf8
  import opened BaseEncodings
  import opened OutputScanner
  import opened ScannerGuarantees

  // ---- the place of a pass -------------------------------------------------------------------

  predicate Distinct(xs: seq<string>) {
    forall i, j | 0 <= i < j < |xs| :: xs[i] != xs[j]
  }

  lemma KeysDistinct(table: Table)
    requires ValidTable(table)
    ensures Distinct(Keys(table))
  {
  }

  lemma {:induction false} OfLengthMembers(keys: seq<string>, n: nat)
    ensures forall x :: x in OfLength(keys, n) <==> x in keys && |x| == n
  {
    if keys == [] {
    } else {
      OfLengthMembers(keys[1..], n);
      assert forall x :: x in keys <==> x == keys[0] || x in keys[1..];
    }
  }

  lemma {:induction false} OfLengthConcat(a: seq<string>, b: seq<string>, n: nat)
    ensures OfLength(a + b, n) == OfLength(a, n) + OfLength(b, n)
  {
    if a == [] {
      assert a + b == b;
    } else {
      ConsConcat(a, b);
      OfLengthConcat(a[1..], b, n);
      Associate(if |a[0]| == n then [a[0]] else [], OfLength(a[1..], n), OfLength(b, n));
    }
  }

  lemma {:induction false} DistinctOnce(xs: seq<string>, z: string)
    requires Distinct(xs)
    ensures multiset(xs)[z] <= 1
  {
    if xs == [] {
    } else {
      var first, rest := xs[0], xs[1..];
      assert xs == [first] + rest;
      DistinctOnce(rest, z);
      if first == z {
        assert z !in rest;
        assert z !in multiset(rest);
      }
    }
  }

  lemma OnceAround(a: seq<string>, z: string, b: seq<string>)
    requires multiset(a + [z] + b)[z] <= 1
    ensures z !in a && z !in b
  {
    assert multiset(a + [z] + b) == multiset(a) + multiset{z} + multiset(b);
    assert multiset(a)[z] == 0 && multiset(b)[z] == 0;
  }

  lemma FirstPlace(a: seq<string>, z: string, b: seq<string>)
    requires z !in a
    ensures (a + [z] + b)[|a|] == z && forall i | 0 <= i < |a| :: (a + [z] + b)[i] != z
    ensures (a + [z] + b)[..|a|] == a && (a + [z] + b)[|a| + 1..] == b
  {
  }

  /** What stands before and after the first place of a string is determined. */
  lemma SameAround(a: seq<string>, b: seq<string>, c: seq<string>, d: seq<string>, z: string)
    requires a + [z] + b == c + [z] + d && z !in a && z !in c
    ensures a == c && b == d
  {
    FirstPlace(a, z, b);
    FirstPlace(c, z, d);
  }

  lemma OfLengthAround(a: seq<string>, z: string, b: seq<string>)
    ensures OfLength(a + [z] + b, |z|) == OfLength(a, |z|) + [z] + OfLength(b, |z|)
  {
    OfLengthConcat(a + [z], b, |z|);
    OfLengthConcat(a, [z], |z|);
    assert [z][1..] == [];
    assert OfLength([z], |z|) == [z];
  }

  /** A key's pass comes after those of all longer keys and of the equally long ones stored before
      it, and before all others. */
  lemma PassPosition(a: seq<string>, z: string, b: seq<string>) returns (front: seq<string>, back: seq<string>)
    requires Distinct(a + [z] + b)
    ensures ByLength(a + [z] + b) == front + [z] + back
    ensures forall x :: x in front <==> x in a + b && (|x| > |z| || (|x| == |z| && x in a))
    ensures forall x :: x in back <==> x in a + b && (|x| < |z| || (|x| == |z| && x in b))
  {
    var keys := a + [z] + b;
    ByLengthIsSort(keys);
    assert keys[|a|] == z;
    front, back := SplitAround(ByLength(keys), z);
    DistinctOnce(keys, z);
    OnceAround(front, z, back);
    OnceAround(a, z, b);
    SplitsByLength(front, z, back);
    TiesAround(a, z, b, front, back);
    SameOthers(front, back, a, b, z);
  }

  lemma SplitAround(order: seq<string>, z: string) returns (front: seq<string>, back: seq<string>)
    requires z in order
    ensures order == front + [z] + back
  {
    var i :| 0 <= i < |order| && order[i] == z;
    front, back := order[..i], order[i + 1..];
  }

  lemma SameOthers(a: seq<string>, b: seq<string>, c: seq<string>, d: seq<string>, z: string)
    requires forall x :: x in a + [z] + b <==> x in c + [z] + d
    requires z !in a + b && z !in c + d
    ensures forall x :: x in a + b <==> x in c + d
  {
    assert forall x :: x in a + [z] + b <==> x in a + b || x == z;
    assert forall x :: x in c + [z] + d <==> x in c + d || x == z;
  }

  lemma SplitsByLength(front: seq<string>, z: string, back: seq<string>)
    requires LongestFirst(front + [z] + back)
    ensures (forall x | x in front :: |x| >= |z|) && forall x | x in back :: |x| <= |z|
  {
    var order := front + [z] + back;
    forall x | x in front ensures |x| >= |z| {
      var j :| 0 <= j < |front| && front[j] == x;
      assert |order[j]| >= |order[|front|]|;
    }
    forall x | x in back ensures |x| <= |z| {
      var j :| 0 <= j < |back| && back[j] == x;
      assert |order[|front|]| >= |order[|front| + 1 + j]|;
    }
  }

  lemma TiesAround(a: seq<string>, z: string, b: seq<string>, front: seq<string>, back: seq<string>)
    requires OfLength(front + [z] + back, |z|) == OfLength(a + [z] + b, |z|)
    requires z !in a && z !in front
    ensures forall x | |x| == |z| :: (x in front <==> x in a) && (x in back <==> x in b)
  {
    OfLengthAround(a, z, b);
    OfLengthAround(front, z, back);
    OfLengthMembers(a, |z|);
    OfLengthMembers(b, |z|);
    OfLengthMembers(front, |z|);
    OfLengthMembers(back, |z|);
    SameAround(OfLength(front, |z|), OfLength(back, |z|), OfLength(a, |z|), OfLength(b, |z|), z);
  }

  /** When no earlier pass finds anything, and no later one either, a scan is the one replacement. */
  lemma ScanIsOnePass(table: Table, text: string, a: seq<string>, z: string, b: seq<string>)
    requires ValidTable(table) && Keys(table) == a + [z] + b
    requires forall k | k in a + b && (|k| > |z| || (|k| == |z| && k in a)) :: !Occurs(k, text)
    requires z != "" && forall k | k in a + b && (|k| < |z| || (|k| == |z| && k in b)) :: !Occurs(k, Replace(text, z))
    ensures Scan(table, text).redacted == Replace(text, z)
  {
    KeysDistinct(table);
    var front, back := PassPosition(a, z, b);
    OrderOf(table);
    assert forall x | x in front :: x in front + [z] + back;
    assert forall x | x in back :: x in front + [z] + back;
    OnePass(front, z, back, text);
  }

  lemma OnePass(front: seq<string>, z: string, back: seq<string>, text: string)
    requires "" !in front && "" !in back && z != ""
    requires forall k | k in front :: !Occurs(k, text)
    requires forall k | k in back :: !Occurs(k, Replace(text, z))
    ensures "" !in front + [z] + back
    ensures Passes(front + [z] + back, text) == Replace(text, z)
  {
    assert forall k :: k in front + [z] + back <==> k in front || k == z || k in back;
    PassesConcat(front + [z], back, text);
    PassesConcat(front, [z], text);
    PassesOnClean(front, text);
    assert [z][1..] == [];
    assert Passes([z], text) == Passes([], Replace(text, z));
    PassesOnClean(back, Replace(text, z));
  }

  // ---- the newest key ------------------------------------------------------------------------

  lemma {:induction false} KeysGrow(table: Table, entries: seq<Entry>)
    ensures Keys(table) <= Keys(Update(table, entries))
    decreases |entries|
  {
    if entries == [] {
    } else {
      PutKeys(table, entries[0]);
      if entries[0].rep !in Keys(table) {
        assert Keys(table + [entries[0]]) == Keys(table) + [entries[0].rep];
      }
      KeysGrow(Put(table, entries[0]), entries[1..]);
    }
  }

  lemma IsItsOwnEncoding(v: string)
    requires v != ""
    ensures IsEncoding(v, v)
  {
    assert Representations(v)[0].rep == v;
  }

  lemma EncodingsBeginWith(value: string)
    requires value != ""
    ensures Encodings(value) != [] && Encodings(value)[0].rep == value
  {
    var all := Representations(value);
    var first, rest := all[0], all[1..];
    assert Put([], first) == [first];
    KeysGrow([first], rest);
    var entries := Update([], all);
    assert entries == Update([first], rest);
    assert Keys([first]) == [value];
    assert Keys(entries)[0] == value && entries[0].rep == value;
    assert Encodings(value) == [entries[0]] + NonEmpty(entries[1..]);
  }

  /** A new value is stored behind all earlier keys, and only longer keys come behind it. */
  lemma NewestKey(table: Table, z: string) returns (later: seq<string>)
    requires ValidTable(table) && z != "" && z !in Keys(table)
    ensures Keys(RegisterOne(table, z)) == Keys(table) + [z] + later
    ensures forall k | k in later :: IsEncoding(k, z) && k != z && |k| > |z|
  {
    EncodingsBeginWith(z);
    FirstIsAppended(table, Encodings(z), z);
    var keys := Keys(RegisterOne(table, z));
    later := keys[|Keys(table) + [z]|..];
    LaterKeys(table, z, later);
  }

  lemma FirstIsAppended(table: Table, entries: seq<Entry>, z: string)
    requires z !in Keys(table) && entries != [] && entries[0].rep == z
    ensures Keys(table) + [z] <= Keys(Update(table, entries))
  {
    PutKeys(table, entries[0]);
    assert Keys(table + [entries[0]]) == Keys(table) + [z];
    KeysGrow(table + [entries[0]], entries[1..]);
  }

  lemma LaterKeys(table: Table, z: string, later: seq<string>)
    requires ValidTable(table) && Keys(RegisterOne(table, z)) == Keys(table) + [z] + later
    ensures forall k | k in later :: IsEncoding(k, z) && k != z && |k| > |z|
  {
    RegisterOneValid(table, z);
    KeysDistinct(RegisterOne(table, z));
    forall k | k in later ensures IsEncoding(k, z) && k != z && |k| > |z| {
      NotEarlier(Keys(table) + [z], later, k);
      assert k in Keys(table) + [z] + later;
      RegisterOneKeys(table, z, k);
      BracketFreeEncodings(z, k);
    }
  }

  lemma NotEarlier(front: seq<string>, later: seq<string>, k: string)
    requires Distinct(front + later) && k in later
    ensures k !in front
  {
    var j :| 0 <= j < |later| && later[j] == k;
    forall i | 0 <= i < |front| ensures front[i] != k {
      assert (front + later)[i] == front[i] && (front + later)[|front| + j] == k;
    }
  }

  /** A value that is new to the table is alone in acting on a text in which no key of at least its
      length occurs, if no shorter key occurs once it is replaced. */
  lemma NewestIsReplaced(table: Table, z: string, text: string)
    requires ValidTable(table) && z != "" && z !in Keys(table)
    requires forall k | k in Keys(table) && |k| >= |z| :: !Occurs(k, text)
    requires forall k | IsEncoding(k, z) && k != z :: !Occurs(k, text)
    requires forall k | k in Keys(table) && |k| < |z| :: !Occurs(k, Replace(text, z))
    ensures ValidTable(RegisterOne(table, z))
    ensures Scan(RegisterOne(table, z), text).redacted == Replace(text, z)
  {
    RegisterOneValid(table, z);
    var later := NewestKey(table, z);
    assert forall k :: k in Keys(table) + later <==> k in Keys(table) || k in later;
    ScanIsOnePass(RegisterOne(table, z), text, Keys(table), z, later);
  }

  // ---- a companion for every secret ----------------------------------------------------------

  const NUL := '\U{0000}'
  const SOH := '\U{0001}'
  const STX := '\U{0002}'
  const ETX := '\U{0003}'

  /** No character of it is in the marker or in a machine encoding, and the first is there once. */
  predicate Alien(z: string) {
    z != "" && z[0] !in z[1..] && forall c | c in z :: c < ' ' && c !in MARKER
  }

  function Filled(n: nat, c: char, d: char): (z: string)
    requires n >= 1 && c < ' ' && d < ' ' && c != d
    ensures Alien(z) && |z| == n && z[0] == c && forall x | x in z :: x == c || x == d
  {
    [c] + seq(n - 1, i => d)
  }

  /** A secret of `n` characters, none of which is in a machine encoding or in the marker. */
  function Companion(n: nat): (z: string)
    requires n >= 1
    ensures Alien(z) && |z| == n
  {
    Filled(n, NUL, SOH)
  }

  lemma CompanionBytes(n: nat)
    requires n >= 1
    ensures var raw := Utf8.Encode(Companion(n)); |raw| >= 1 && raw[0] == 0 && (|raw| > 1 ==> raw[1] == 1)
  {
    var z := Companion(n);
    assert Utf8.Encode(z) == [0] + Utf8.Encode(z[1..]);
    if n > 1 {
      assert z[1..][0] == SOH;
      assert Utf8.Encode(z[1..]) == [1] + Utf8.Encode(z[1..][1..]);
    }
  }

  /** Its encodings begin with what the marker's word does not contain. */
  lemma CompanionEncodings(n: nat, i: nat)
    requires n >= 1 && 1 <= i < 7
    ensures var rep := Representations(Companion(n))[i].rep;
            |rep| >= 2 && ((rep[0] == 'A' && rep[1] == 'A') || rep[0] == '0')
  {
    CompanionBytes(n);
    var raw := Utf8.Encode(Companion(n));
    if i <= 4 {
      DigitsStartWithAA(i > 2, raw);
    } else {
      assert HexDigit(i == 6, 0) == '0';
    }
  }

  lemma DigitsStartWithAA(url: bool, raw: seq<Byte>)
    requires |raw| >= 1 && raw[0] == 0 && (|raw| > 1 ==> raw[1] == 1)
    ensures "AA" <= Encode64(url, raw) && "AA" <= StripPadding(Encode64(url, raw))
  {
    EncodedIsDigits(url, raw);
    StrippedIsDigits(url, raw);
    var vs := Sextets(raw);
    assert vs[0] == 0 && vs[1] == 0;
    assert Digits(url, vs)[0] == 'A' && Digits(url, vs)[1] == 'A';
  }

  lemma NotInWord(rep: string)
    requires |rep| >= 2 && ((rep[0] == 'A' && rep[1] == 'A') || rep[0] == '0')
    ensures !Occurs(rep, "REDACTED")
  {
    forall i ensures !At("REDACTED", i, rep) {
      AtIsPointwise("REDACTED", i, rep);
    }
  }

  lemma CompanionIsSafe(n: nat)
    requires n >= 1
    ensures SafeSecret(Companion(n))
  {
    var z := Companion(n);
    NoMarkerLetters(z);
    forall rep | IsEncoding(rep, z) ensures MarkerSafe(rep) {
      if rep != z {
        var i :| 0 <= i < 7 && Representations(z)[i].rep == rep;
        EncodingsShape(z, i);
        CompanionEncodings(n, i);
        NotInWord(rep);
        BracketFreeSafety(rep);
      }
    }
  }

  predicate Printable(k: string) {
    forall c | c in k :: c > ' '
  }

  /** A printable string in a text with an alien in the middle lies beside the alien. */
  lemma PrintableBeside(rep: string, before: string, z: string, after: string)
    requires Alien(z) && rep != "" && Printable(rep)
    ensures Occurs(rep, before + z + after) <==> Occurs(rep, before) || Occurs(rep, after)
  {
    assert Foreign([rep], z);
    ForeignIsBarrier([rep], z);
    assert rep in [rep];
    OccursAcross(before, z, after, rep);
  }

  /** What is found around two strings of at most its length reaches into both at one place, so they
      have a character in common. */
  lemma AroundBoth(u: string, before: string, y: string, z: string, after: string)
    requires |y| == |z| && |before| + |after| < |z| <= |u|
    requires Occurs(u, before + y + after) && Occurs(u, before + z + after)
    ensures exists c | c in y :: c in z
  {
    var i :| 0 <= i <= |before + y + after| && At(before + y + after, i, u);
    var j :| 0 <= j <= |before + z + after| && At(before + z + after, j, u);
    var k := InBoth(|before|, if i <= j then i else j);
    MiddleAt(before, y, after, u, i, k);
    MiddleAt(before, z, after, u, j, k);
  }

  lemma MiddleAt(before: string, y: string, after: string, u: string, i: int, k: nat)
    requires At(before + y + after, i, u) && k < |u| && |before| <= i + k < |before| + |y|
    ensures u[k] in y
  {
    AtIsPointwise(before + y + after, i, u);
    assert u[k] == y[i + k - |before|];
  }

  /** Where a string found at `i` enters what begins at `a`. */
  function InBoth(a: nat, i: nat): nat {
    if i < a then a - i else 0
  }

  // ---- exactly which secrets -----------------------------------------------------------------

  lemma EncodingsMiss(z: string, p: string, d: int)
    requires Alien(z) && |z| == |p| && -|p| < d < |MARKER|
    ensures forall k | IsEncoding(k, z) && k != z :: !Occurs(k, Around(p, d, z))
  {
    AroundIsShort(p, d);
    forall k | IsEncoding(k, z) && k != z ensures !Occurs(k, Around(p, d, z)) {
      BracketFreeEncodings(z, k);
      PrintableBeside(k, Before(p, d), z, After(p, d));
      if Occurs(k, p) { OccursNeedsRoom(k, p); }
    }
  }

  /** What a safe key guards, or is, appears around the marker only if `p` itself is guarded. */
  lemma GuardedMissesMarker(keys: seq<string>, p: string, d: int, k: string)
    requires p != "" && -|p| < d < |MARKER| && Guarded(keys, k) && !Guarded(keys, p)
    ensures !Occurs(k, Around(p, d, MARKER))
  {
    AroundIsShort(p, d);
    var q :| q in keys && MarkerSafe(q) && Occurs(q, k);
    OccursAcross(Before(p, d), MARKER, After(p, d), q);
    if Occurs(k, Around(p, d, MARKER)) { OccursTransitive(q, k, Around(p, d, MARKER)); }
  }

  /** A shortest unguarded key that meets the marker survives beside an alien of its length, if no
      other key of at least that length is found around the alien. */
  lemma UnguardedSurvives(table: Table, p: string, d: int, z: string)
    requires ValidTable(table) && p in Keys(table) && !Guarded(Keys(table), p)
    requires -|p| < d < |MARKER| && Agrees(p, MARKER, d) && Alien(z) && |z| == |p|
    requires forall k | k in Keys(table) && |k| < |p| :: Guarded(Keys(table), k)
    requires forall k | k in Keys(table) && |k| >= |p| && k != p :: !Occurs(k, Around(p, d, z))
    ensures ValidTable(RegisterOne(table, z))
    ensures Occurs(p, Scan(RegisterOne(table, z), Around(p, d, z)).redacted)
  {
    var text := Around(p, d, z);
    CompanionCompletes(p, z, d);
    OccursInItself(z);
    OccursInPart(z, Before(p, d), z, After(p, d));
    forall k | k in Keys(table) && |k| < |p| ensures !Occurs(k, Replace(text, z)) {
      GuardedMissesMarker(Keys(table), p, d, k);
    }
    EncodingsMiss(z, p, d);
    NewestIsReplaced(table, z, text);
  }

  lemma TwoRegistrations(v: string, z: string)
    ensures RegisterAll([], [v, z]) == RegisterOne(RegisterOne([], v), z)
  {
    assert [v, z][1..] == [z] && [z][1..] == [];
    assert RegisterAll(RegisterOne([], v), [z]) == RegisterAll(RegisterOne(RegisterOne([], v), z), []);
  }

  lemma EmptyFirst(v: string)
    ensures RegisterAll([], ["", v]) == RegisterOne([], v)
  {
    TwoRegistrations("", v);
  }

  lemma LoneKeys(v: string, k: string)
    ensures k in Keys(RegisterOne([], v)) <==> IsEncoding(k, v)
    ensures IsEncoding(k, v) ==> |k| >= |v|
  {
    RegisterOneKeys([], v, k);
    if IsEncoding(k, v) { BracketFreeEncodings(v, k); }
  }

  /** A secret that itself can overlap the marker survives beside its companion. */
  lemma OverlappingSecretSurvives(v: string) returns (text: string)
    requires v != "" && !MarkerSafe(v)
    ensures ValidTable(RegisterAll([], [v, Companion(|v|)]))
    ensures Occurs(v, Scan(RegisterAll([], [v, Companion(|v|)]), text).redacted)
  {
    var z := Companion(|v|);
    var d := MeetingPlace(v);
    text := Around(v, d, z);
    TwoRegistrations(v, z);
    RegisterOneValid([], v);
    IsItsOwnEncoding(v);
    LoneKeys(v, v);
    AroundIsShort(v, d);
    forall k | k in Keys(RegisterOne([], v))
      ensures |k| >= |v| && (Occurs(k, v) ==> k == v) && (k != v ==> !Occurs(k, text))
    {
      LoneKeys(v, k);
      BracketFreeEncodings(v, k);
      if Occurs(k, v) { OccursNeedsRoom(k, v); }
      if k != v { PrintableBeside(k, Before(v, d), z, After(v, d)); }
    }
    UnguardedSurvives(RegisterOne([], v), v, d, z);
  }

  /** For every unsafe secret: a text on which one of its encodings survives beside the companion. */
  lemma UnsafeSecretSurvives(v: string) returns (rep: string, text: string)
    requires !SafeSecret(v)
    ensures v != "" && IsEncoding(rep, v) && SafeSecret(Companion(|v|))
    ensures ValidTable(RegisterAll([], [v, Companion(|v|)]))
    ensures Occurs(rep, Scan(RegisterAll([], [v, Companion(|v|)]), text).redacted)
  {
    rep :| IsEncoding(rep, v) && !MarkerSafe(rep);
    if v == "" { EmptyHasNoEncodings(rep); }
    CompanionIsSafe(|v|);
    BracketFreeEncodings(v, rep);
    if rep == v {
      text := OverlappingSecretSurvives(v);
    } else {
      BracketFreeSafety(rep);
      WordInMarker(rep);
      text := rep;
      assert [v, Companion(|v|)][0] in [v, Companion(|v|)];
      SecretInMarkerSurvives([v, Companion(|v|)], v, rep);
    }
  }

  ghost predicate HiddenAfter(values: seq<string>, v: string, text: string) {
    ValidTable(RegisterAll([], values)) && Hidden(v, Scan(RegisterAll([], values), text).redacted)
  }

  /** In no history of registrations, whatever else is registered, is `v` shown by any scan. */
  ghost predicate NeverShown(v: string) {
    forall values: seq<string>, text: string :: v in values ==> HiddenAfter(values, v, text)
  }

  /** The same for histories in which everything else is a safe secret. */
  ghost predicate NeverShownAmongSafe(v: string) {
    forall values: seq<string>, text: string ::
      v in values && (forall u | u in values :: u == v || SafeSecret(u)) ==> HiddenAfter(values, v, text)
  }

  /** A secret is hidden by every scan after every history of registrations exactly when it is safe:
      none of its encodings can overlap the marker. What else is registered does not matter: a safe
      secret is hidden beside unsafe ones, and an unsafe one is shown beside a safe one. */
  lemma SecretSafetyIsExact(v: string)
    ensures SafeSecret(v) <==> NeverShown(v)
    ensures SafeSecret(v) <==> NeverShownAmongSafe(v)
  {
    if SafeSecret(v) {
      forall values: seq<string>, text: string | v in values ensures HiddenAfter(values, v, text) {
        HistoryHidden(values, text);
      }
    } else {
      var rep, text := UnsafeSecretSurvives(v);
      var values := [v, Companion(|v|)];
      assert values[0] in values;
      assert !HiddenAfter(values, v, text);
    }
  }

  lemma EmptyIsSafe()
    ensures SafeSecret("")
  {
    forall rep ensures !IsEncoding(rep, "") {
      EmptyHasNoEncodings(rep);
    }
  }

  // ---- a table for all time ------------------------------------------------------------------

  /** Whatever is registered later, no scan shows a key of the table. */
  ghost predicate StaysComplete(table: Table) {
    forall later: seq<string>, text: string, rep | rep in Keys(table) :: HiddenIn(RegisterAll(table, later), rep, text)
  }

  ghost predicate HiddenIn(table: Table, rep: string, text: string) {
    ValidTable(table) && !Occurs(rep, Scan(table, text).redacted)
  }

  /** Any table that leaves two control characters unused stays complete exactly when every key has a
      safe key inside it. */
  lemma StaysCompleteExactly(table: Table, c: char, d: char)
    requires ValidTable(table) && c < ' ' && d < ' ' && c != d
    requires forall k | k in Keys(table) :: c !in k && d !in k
    ensures StaysComplete(table) <==> AllGuarded(table)
  {
    if AllGuarded(table) {
      forall later: seq<string>, text: string, rep | rep in Keys(table)
        ensures HiddenIn(RegisterAll(table, later), rep, text)
      {
        RegisterAllValid(table, later);
        var q :| q in Keys(table) && MarkerSafe(q) && Occurs(q, rep);
        RegisteredExactly(table, later, q);
        GuardedHidden(RegisterAll(table, later), rep, text);
      }
    } else {
      var p := ShortestUnguarded(Keys(table), Keys(table));
      if MarkerSafe(p) { SafeIsGuarded(Keys(table), p); }
      var at := MeetingPlace(p);
      var z := Filled(|p|, c, d);
      NothingAround(table, p, at, z);
      UnguardedSurvives(table, p, at, z);
      assert [z][1..] == [];
      assert RegisterAll(table, [z]) == RegisterOne(table, z);
      assert !HiddenIn(RegisterAll(table, [z]), p, Around(p, at, z));
    }
  }

  lemma NothingAround(table: Table, p: string, d: int, z: string)
    requires ValidTable(table) && p != "" && -|p| < d < |MARKER| && Alien(z) && |z| == |p|
    requires forall k, c | k in Keys(table) && c in z :: c !in k
    ensures forall k | k in Keys(table) && |k| >= |p| :: !Occurs(k, Around(p, d, z))
  {
    AroundIsShort(p, d);
    assert Foreign(Keys(table), z);
    ForeignIsBarrier(Keys(table), z);
    forall k | k in Keys(table) && |k| >= |p| ensures !Occurs(k, Around(p, d, z)) {
      OccursAcross(Before(p, d), z, After(p, d), k);
      if Occurs(k, Before(p, d)) { OccursNeedsRoom(k, Before(p, d)); }
      if Occurs(k, After(p, d)) { OccursNeedsRoom(k, After(p, d)); }
    }
  }

  lemma {:induction false} ShortestUnguarded(keys: seq<string>, some: seq<string>) returns (p: string)
    requires exists k | k in some :: !Guarded(keys, k)
    ensures p in some && !Guarded(keys, p) && forall k | k in some && |k| < |p| :: Guarded(keys, k)
  {
    var first, rest := some[0], some[1..];
    assert forall k :: k in some <==> k == first || k in rest;
    if forall k | k in rest :: Guarded(keys, k) {
      p := first;
    } else {
      p := ShortestUnguarded(keys, rest);
      if !Guarded(keys, first) && |first| < |p| { p := first; }
    }
  }

  // ---- two secrets for all time --------------------------------------------------------------

  /** In no history that begins with the two values is either of them shown by any scan. */
  ghost predicate PairNeverShown(v: string, u: string) {
    forall later: seq<string>, text: string ::
      HiddenAfter([v, u] + later, v, text) && HiddenAfter([v, u] + later, u, text)
  }

  /** For two given values, what is shown after further registrations is decided exactly, also when
      one value hides the other by breaking it up: nothing is shown exactly when every encoding of
      either has a safe encoding of one of them inside it. */
  lemma PairSafetyIsExact(v: string, u: string)
    ensures PairNeverShown(v, u) <==> AllGuarded(RegisterAll([], [v, u]))
  {
    if AllGuarded(RegisterAll([], [v, u])) {
      forall later: seq<string>, text: string
        ensures HiddenAfter([v, u] + later, v, text) && HiddenAfter([v, u] + later, u, text)
      {
        RegisterAllValid([], [v, u] + later);
        PairRegistered(v, u);
        forall k | k in Keys(RegisterAll([], [v, u])) ensures k in Keys(RegisterAll([], [v, u] + later)) {
          MoreRegistered([v, u], later, k);
        }
        GuardedPairHidden(RegisterAll([], [v, u]), RegisterAll([], [v, u] + later), v, u, text);
      }
    } else {
      PairRegistered(v, u);
      var owner, z, rep, text := UnguardedPairSurvives(RegisterAll([], [v, u]), v, u);
      ThirdRegistration(v, u, z);
      assert !HiddenAfter([v, u] + [z], v, text) || !HiddenAfter([v, u] + [z], u, text);
    }
  }

  lemma MoreRegistered(values: seq<string>, later: seq<string>, k: string)
    requires k in Keys(RegisterAll([], values))
    ensures k in Keys(RegisterAll([], values + later))
  {
    RegisteredExactly([], values, k);
    RegisteredExactly([], values + later, k);
  }

  /** What a pair guards stays hidden, whatever else a table knows. */
  lemma GuardedPairHidden(table: Table, larger: Table, v: string, u: string, text: string)
    requires KnowsPair(table, v, u) && AllGuarded(table)
    requires ValidTable(larger) && forall k | k in Keys(table) :: k in Keys(larger)
    ensures Hidden(v, Scan(larger, text).redacted) && Hidden(u, Scan(larger, text).redacted)
  {
    forall rep | IsEncoding(rep, v) || IsEncoding(rep, u) ensures !Occurs(rep, Scan(larger, text).redacted) {
      assert rep in Keys(table);
      var q :| q in Keys(table) && MarkerSafe(q) && Occurs(q, rep);
      GuardedHidden(larger, rep, text);
    }
  }

  lemma ThirdRegistration(v: string, u: string, z: string)
    ensures RegisterAll([], [v, u] + [z]) == RegisterOne(RegisterAll([], [v, u]), z)
  {
    TwoRegistrations(v, u);
    assert ([v, u] + [z])[1..] == [u, z] && [u, z][1..] == [z] && [z][1..] == [];
    assert RegisterAll([], [v, u] + [z]) == RegisterAll(RegisterOne([], v), [u, z]);
    assert RegisterAll(RegisterOne([], v), [u, z]) == RegisterAll(RegisterOne(RegisterOne([], v), u), [z]);
    assert RegisterAll(RegisterOne(RegisterOne([], v), u), [z]) ==
           RegisterAll(RegisterOne(RegisterOne(RegisterOne([], v), u), z), []);
  }

  /** The table knows the two values and nothing else. */
  ghost predicate KnowsPair(table: Table, v: string, u: string) {
    ValidTable(table) && forall k :: k in Keys(table) <==> IsEncoding(k, v) || IsEncoding(k, u)
  }

  lemma PairRegistered(v: string, u: string)
    ensures KnowsPair(RegisterAll([], [v, u]), v, u)
  {
    RegisterAllValid([], [v, u]);
    forall k ensures k in Keys(RegisterAll([], [v, u])) <==> IsEncoding(k, v) || IsEncoding(k, u) {
      RegisteredExactly([], [v, u], k);
      assert forall x :: x in [v, u] <==> x == v || x == u;
    }
  }

  /** For two values that are not both guarded: what to register behind them, and on which text one
      of their encodings then survives. */
  lemma UnguardedPairSurvives(table: Table, v: string, u: string)
    returns (owner: string, z: string, rep: string, text: string)
    requires KnowsPair(table, v, u) && !AllGuarded(table)
    ensures (owner == v || owner == u) && IsEncoding(rep, owner) && ValidTable(RegisterOne(table, z))
    ensures Occurs(rep, Scan(RegisterOne(table, z), text).redacted)
  {
    if inside :| inside in Keys(table) && Occurs(inside, MARKER) {
      z, rep, text := "", inside, inside;
      KeyInMarkerSurvives(table, rep);
    } else {
      forall k | k in Keys(table) ensures k == v || k == u || (MarkerSafe(k) && Printable(k)) {
        MachineKeySafe(v, k);
        MachineKeySafe(u, k);
      }
      rep := ShortestUnguarded(Keys(table), Keys(table));
      if MarkerSafe(rep) { SafeIsGuarded(Keys(table), rep); }
      z, text := StraddlingSurvives(table, rep, if rep == v then u else v);
    }
    owner := if IsEncoding(rep, v) then v else u;
  }

  lemma MachineKeySafe(v: string, k: string)
    ensures IsEncoding(k, v) && k != v && !Occurs(k, MARKER) ==> MarkerSafe(k) && Printable(k)
  {
    if IsEncoding(k, v) && k != v {
      BracketFreeEncodings(v, k);
      BracketFreeSafety(k);
      if Occurs(k, "REDACTED") { WordInMarker(k); }
    }
  }

  /** Of two aliens one is not broken up by the other value. */
  lemma StraddlingSurvives(table: Table, p: string, other: string) returns (z: string, text: string)
    requires ValidTable(table) && p in Keys(table) && !Guarded(Keys(table), p) && !MarkerSafe(p)
    requires forall k | k in Keys(table) :: k == p || k == other || (MarkerSafe(k) && Printable(k))
    requires forall k | k in Keys(table) && |k| < |p| :: Guarded(Keys(table), k)
    ensures ValidTable(RegisterOne(table, z))
    ensures Occurs(p, Scan(RegisterOne(table, z), text).redacted)
  {
    var d := MeetingPlace(p);
    z := FreeAlien(p, d, other);
    text := Around(p, d, z);
    AroundIsShort(p, d);
    forall k | k in Keys(table) && |k| >= |p| && k != p ensures !Occurs(k, text) {
      if k != other {
        PrintableBeside(k, Before(p, d), z, After(p, d));
        assert MarkerSafe(k) && k in Keys(table);
      }
    }
    UnguardedSurvives(table, p, d, z);
  }

  lemma FreeAlien(p: string, d: int, other: string) returns (z: string)
    requires p != "" && -|p| < d < |MARKER|
    ensures Alien(z) && |z| == |p| && (|other| >= |p| ==> !Occurs(other, Around(p, d, z)))
  {
    var x, y := Companion(|p|), Filled(|p|, STX, ETX);
    AroundIsShort(p, d);
    z := if Occurs(other, Around(p, d, x)) then y else x;
    if |other| >= |p| && Occurs(other, Around(p, d, x)) && Occurs(other, Around(p, d, y)) {
      AroundBoth(other, Before(p, d), x, y, After(p, d));
    }
  }

  // ---- brackets at the ends ------------------------------------------------------------------

  /** However long it is, a secret that starts with the marker's last character or ends with its
      first is not safe. */
  lemma BracketAtEndUnsafe(v: string)
    requires v != "" && (v[0] == ']' || v[|v| - 1] == '[')
    ensures !SafeSecret(v)
  {
    IsItsOwnEncoding(v);
    if v[0] == ']' {
      assert Agrees(v, MARKER, 9);
    } else {
      assert Agrees(v, MARKER, 1 - |v|);
    }
    assert !MarkerSafe(v);
  }

  /** The first digits of every machine encoding of a secret that starts with a closing bracket. */
  lemma ClosingBracketEncodings(v: string, i: nat)
    requires v != "" && v[0] == ']' && 1 <= i < 7
    ensures var rep := Representations(v)[i].rep; rep != "" && (rep[0] == 'X' || rep[0] == '5')
  {
    var raw := Utf8.Encode(v);
    assert raw == [0x5D] + Utf8.Encode(v[1..]);
    if i <= 4 {
      DigitsStartWithX(i > 2, raw);
    } else {
      HexStartsWith5(i == 6, raw);
    }
  }

  lemma HexStartsWith5(upper: bool, raw: seq<Byte>)
    requires raw != [] && raw[0] == 0x5D
    ensures "5" <= EncodeHex(upper, raw)
  {
    assert HexDigit(upper, raw[0] / 16) == '5';
  }

  lemma DigitsStartWithX(url: bool, raw: seq<Byte>)
    requires raw != [] && raw[0] == 0x5D
    ensures "X" <= Encode64(url, raw) && "X" <= StripPadding(Encode64(url, raw))
  {
    EncodedIsDigits(url, raw);
    StrippedIsDigits(url, raw);
    var vs := Sextets(raw);
    assert vs[0] == 23;
    assert Digits(url, vs)[0] == 'X';
  }

  /** Registered on its own, such a secret survives in itself followed by itself without the bracket,
      unless another encoding of it is there to break that text up: the marker put in its place
      brings the bracket back. */
  lemma ClosingBracketSurvives(v: string)
    requires v != "" && v[0] == ']'
    requires forall k | IsEncoding(k, v) && k != v :: !Occurs(k, v + v[1..])
    ensures !SafeSecret(v) && ValidTable(RegisterAll([], [v]))
    ensures Occurs(v, Scan(RegisterAll([], [v]), v + v[1..]).redacted)
  {
    assert [v][1..] == [];
    assert RegisterAll([], [v]) == RegisterOne([], v);
    NewestIsReplaced([], v, v + v[1..]);
    BracketComesBack(v);
    BracketAtEndUnsafe(v);
  }

  /** Without the first digit of its encodings in it, nothing breaks it up. */
  lemma NoDigitNoEncoding(v: string, k: string)
    requires v != "" && v[0] == ']' && 'X' !in v && '5' !in v && IsEncoding(k, v) && k != v
    ensures !Occurs(k, v + v[1..])
  {
    var i :| 0 <= i < 7 && Representations(v)[i].rep == k;
    ClosingBracketEncodings(v, i);
    assert k[0] in k;
    if Occurs(k, v + v[1..]) { OccursNeedsRoom(k, v + v[1..]); }
  }

  lemma BracketComesBack(v: string)
    requires v != "" && v[0] == ']'
    ensures Occurs(v, Replace(v + v[1..], v))
  {
    var rest := v[1..];
    FindInFront(v, rest);
    ReplaceStep("", v, rest);
    NothingInFront(v, rest);
    if Occurs(v, rest) { OccursNeedsRoom(v, rest); }
    NothingInFront(MARKER, rest);
    MarkerBracket(v);
  }

  lemma FindInFront(v: string, rest: string)
    ensures Find("" + v + rest, v) == 0
  {
    NothingInFront(v, rest);
    assert (v + rest)[0..0 + |v|] == v;
    assert At(v + rest, 0, v);
  }

  lemma MarkerBracket(v: string)
    requires v != "" && v[0] == ']'
    ensures Occurs(v, MARKER + v[1..])
  {
    assert (MARKER + v[1..])[9..9 + |v|] == v;
    assert At(MARKER + v[1..], 9, v);
  }

  /** A secret in point, with thirty-two characters. */
  lemma LongSecretSurvives(v: string)
    requires v == "]hunter2-hunter2-hunter2-hunter2"
    ensures |v| == 32 && !SafeSecret(v) && ValidTable(RegisterAll([], [v]))
    ensures Occurs(v, Scan(RegisterAll([], [v]), v + v[1..]).redacted)
  {
    assert v[0] == ']' && 'X' !in v && '5' !in v;
    forall k | IsEncoding(k, v) && k != v { NoDigitNoEncoding(v, k); }
    ClosingBracketSurvives(v);
  }
}

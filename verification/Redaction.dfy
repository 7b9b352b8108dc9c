/**
 The text-rewriting core of the redactor: leftmost non-overlapping replacement by the marker, and
 a sequence of such passes, each over the text the earlier ones produced.

 Everything rests on one idea, a barrier: a string that no occurrence of a pattern can overlap.
 Both the marker (for patterns that are safe) and a separator are barriers, and a pass
 works on the two sides of a barrier independently.
 */
module Redaction {
  import opened Sequences
  import opened Text

  const MARKER := "[REDACTED]"

  /** `t.replace(p, MARKER)`: leftmost, non-overlapping. */
  function Replace(t: string, p: string): string
    requires p != ""
    decreases |t|
  {
    var i := Find(t, p);
    if i == -1 then t else t[..i] + MARKER + Replace(t[i + |p|..], p)
  }

  /** One replacement pass per pattern, in order. */
  function Passes(order: seq<string>, t: string): string
    requires "" !in order
  {
    if order == [] then t else Passes(order[1..], Replace(t, order[0]))
  }

  /** The patterns whose pass found something, in order. */
  function Hits(order: seq<string>, t: string): seq<string>
    requires "" !in order
  {
    if order == [] then []
    else (if Occurs(order[0], t) then [order[0]] else []) + Hits(order[1..], Replace(t, order[0]))
  }

  // ---- barriers ------------------------------------------------------------------------------

  /** `p` and `b` carry the same characters where they meet, when `p` starts `d` places after `b`. */
  predicate Agrees(p: string, b: string, d: int) {
    forall k | 0 <= k < |p| && 0 <= k + d < |b| :: p[k] == b[k + d]
  }

  /** No occurrence of `p` can share a position with an occurrence of `b`, in any text. */
  predicate Avoids(p: string, b: string) {
    forall d | -|p| < d < |b| :: !Agrees(p, b, d)
  }

  /** A pattern that can never overlap the marker. */
  predicate MarkerSafe(p: string) {
    p != "" && Avoids(p, MARKER)
  }

  predicate AllSafe(order: seq<string>) {
    forall p | p in order :: MarkerSafe(p)
  }

  /** An occurrence that reaches into `b` agrees with it there. */
  lemma Overlap(a: string, b: string, c: string, p: string, i: int)
    requires At(a + b + c, i, p)
    ensures Agrees(p, b, i - |a|)
  {
    AtIsPointwise(a + b + c, i, p);
    forall k | 0 <= k < |p| && 0 <= k + i - |a| < |b| ensures p[k] == b[k + i - |a|] {
      assert (a + b + c)[i + k] == b[k + i - |a|];
    }
  }

  /** An occurrence next to a barrier lies wholly on one side of it. */
  lemma OneSide(a: string, b: string, c: string, p: string, i: int)
    requires p != "" && b != "" && Avoids(p, b)
    ensures At(a + b + c, i, p) <==> At(a, i, p) || At(c, i - |a| - |b|, p)
  {
    AtIsPointwise(a + b + c, i, p);
    AtIsPointwise(a, i, p);
    AtIsPointwise(c, i - |a| - |b|, p);
    if At(a + b + c, i, p) {
      Overlap(a, b, c, p, i);
      assert Agrees(p, b, i - |a|);
      assert i + |p| <= |a| || |a| + |b| <= i;
    }
  }

  lemma OccursAcross(a: string, b: string, c: string, p: string)
    requires p != "" && b != "" && Avoids(p, b)
    ensures Occurs(p, a + b + c) <==> Occurs(p, a) || Occurs(p, c)
  {
    if Occurs(p, a + b + c) {
      var i :| 0 <= i <= |a + b + c| && At(a + b + c, i, p);
      OneSide(a, b, c, p, i);
    }
    if Occurs(p, a) {
      var i :| 0 <= i <= |a| && At(a, i, p);
      OneSide(a, b, c, p, i);
    }
    if Occurs(p, c) {
      var i :| 0 <= i <= |c| && At(c, i, p);
      OneSide(a, b, c, p, |a| + |b| + i);
    }
  }

  /** The leftmost occurrence is the leftmost one before the barrier, or else the one after it. */
  lemma FindAcross(a: string, b: string, c: string, p: string)
    requires p != "" && b != "" && Avoids(p, b)
    ensures Find(a + b + c, p) ==
            if Occurs(p, a) then Find(a, p)
            else if Occurs(p, c) then |a| + |b| + Find(c, p)
            else -1
  {
    OccursAcross(a, b, c, p);
    forall i ensures At(a + b + c, i, p) <==> At(a, i, p) || At(c, i - |a| - |b|, p) {
      OneSide(a, b, c, p, i);
    }
    if Occurs(p, a) {
      assert At(a + b + c, Find(a, p), p);
    } else if Occurs(p, c) {
      assert At(a + b + c, |a| + |b| + Find(c, p), p);
    }
  }

  /** One step of a replacement, at the leftmost occurrence. */
  lemma ReplaceStep(left: string, p: string, rest: string)
    requires p != "" && Find(left + p + rest, p) == |left|
    ensures Replace(left + p + rest, p) == left + MARKER + Replace(rest, p)
  {
    var t := left + p + rest;
    assert t[..|left|] == left;
    assert t[|left| + |p|..] == rest;
  }

  lemma SplitAtFind(t: string, p: string) returns (left: string, rest: string)
    requires p != "" && Occurs(p, t)
    ensures t == left + p + rest && Find(t, p) == |left| && !Occurs(p, left)
    ensures left == t[..|left|] && rest == t[|left| + |p|..]
    ensures Replace(t, p) == left + MARKER + Replace(rest, p)
  {
    var i := Find(t, p);
    left, rest := t[..i], t[i + |p|..];
    assert t == left + p + rest;
    forall j ensures !At(left, j, p) {
      AtIsPointwise(left, j, p);
      AtIsPointwise(t, j, p);
    }
  }

  lemma Regroup(a: string, b: string, c: string, d: string, e: string)
    ensures a + b + (c + d + e) == (a + b + c) + d + e
    ensures a + b + (c + d + e) == a + (b + c + d) + e
  {
  }

  lemma {:induction false} ReplaceAcross(a: string, b: string, c: string, p: string)
    requires p != "" && b != "" && Avoids(p, b)
    ensures Replace(a + b + c, p) == Replace(a, p) + b + Replace(c, p)
    decreases |a|
  {
    FindAcross(a, b, c, p);
    if Occurs(p, a) {
      var left, rest := SplitAtFind(a, p);
      Regroup(left, p, rest, b, c);
      ReplaceStep(left, p, rest + b + c);
      ReplaceAcross(rest, b, c, p);
      Regroup(left, MARKER, Replace(rest, p), b, Replace(c, p));
    } else if Occurs(p, c) {
      var left, rest := SplitAtFind(c, p);
      Regroup(a, b, left, p, rest);
      ReplaceStep(a + b + left, p, rest);
      Regroup(a, b, left, MARKER, Replace(rest, p));
    } else {
    }
  }

  lemma {:induction false} PassesAcross(order: seq<string>, a: string, b: string, c: string)
    requires "" !in order && b != ""
    requires forall p | p in order :: Avoids(p, b)
    ensures Passes(order, a + b + c) == Passes(order, a) + b + Passes(order, c)
  {
    if order == [] {
    } else {
      ReplaceAcross(a, b, c, order[0]);
      PassesAcross(order[1..], Replace(a, order[0]), b, Replace(c, order[0]));
    }
  }

  // ---- nothing survives ----------------------------------------------------------------------

  /** After its own pass a safe pattern is gone, although the pass itself inserted text. */
  lemma {:induction false} ReplaceRemoves(t: string, p: string)
    requires MarkerSafe(p)
    ensures !Occurs(p, Replace(t, p))
    decreases |t|
  {
    if !Occurs(p, t) {
    } else {
      var left, rest := SplitAtFind(t, p);
      ReplaceRemoves(rest, p);
      OccursAcross(left, MARKER, Replace(rest, p), p);
    }
  }

  /** A pass for another pattern cannot bring a safe pattern into being. */
  lemma {:induction false} ReplaceCreatesNothing(t: string, p: string, q: string)
    requires p != "" && MarkerSafe(q)
    requires Occurs(q, Replace(t, p))
    ensures Occurs(q, t)
    decreases |t|
  {
    if !Occurs(p, t) {
    } else {
      var left, rest := SplitAtFind(t, p);
      OccursAcross(left, MARKER, Replace(rest, p), q);
      if Occurs(q, left) {
        assert t[0..|left|] == left;
        OccursInSlice(q, t, 0, |left|);
      } else {
        ReplaceCreatesNothing(rest, p, q);
        assert t[|left| + |p|..|t|] == rest;
        OccursInSlice(q, t, |left| + |p|, |t|);
      }
    }
  }

  lemma {:induction false} PassesConcat(xs: seq<string>, ys: seq<string>, t: string)
    requires "" !in xs && "" !in ys
    ensures Passes(xs + ys, t) == Passes(ys, Passes(xs, t))
    decreases |xs|
  {
    if xs == [] {
      assert xs + ys == ys;
    } else {
      ConsConcat(xs, ys);
      PassesConcat(xs[1..], ys, Replace(t, xs[0]));
    }
  }

  lemma {:induction false} PassesCreateNothing(order: seq<string>, t: string, q: string)
    requires "" !in order && MarkerSafe(q)
    requires Occurs(q, Passes(order, t))
    ensures Occurs(q, t)
  {
    if order == [] {
    } else {
      PassesCreateNothing(order[1..], Replace(t, order[0]), q);
      assert Passes(order, t) == Passes(order[1..], Replace(t, order[0]));
      ReplaceCreatesNothing(t, order[0], q);
    }
  }

  /** No safe pattern of the list survives the passes, whatever the order and whatever the text. */
  lemma {:induction false} PassesRemove(order: seq<string>, t: string, q: string)
    requires "" !in order && q in order && MarkerSafe(q)
    ensures !Occurs(q, Passes(order, t))
  {
    var next := Replace(t, order[0]);
    if order[0] == q {
      ReplaceRemoves(t, q);
      if Occurs(q, Passes(order[1..], next)) {
        PassesCreateNothing(order[1..], next, q);
      }
    } else {
      PassesRemove(order[1..], next, q);
    }
  }

  /** Passes that find nothing change nothing: the hits are empty exactly on clean text. */
  lemma {:induction false} NoHits(order: seq<string>, t: string)
    requires "" !in order
    ensures Hits(order, t) == [] <==> forall p | p in order :: !Occurs(p, t)
    ensures Hits(order, t) == [] ==> Passes(order, t) == t
  {
    if order == [] {
    } else {
      NoHits(order[1..], Replace(t, order[0]));
      if !Occurs(order[0], t) {
        assert Replace(t, order[0]) == t;
        assert forall p | p in order :: p == order[0] || p in order[1..];
      }
    }
  }

  /** Every pattern that scored a hit is in the list and was in the text from the start. */
  lemma {:induction false} HitsWereThere(order: seq<string>, t: string, p: string)
    requires AllSafe(order) && p in Hits(order, t)
    ensures p in order && Occurs(p, t)
  {
    if p == order[0] && Occurs(p, t) {
    } else {
      HitsWereThere(order[1..], Replace(t, order[0]), p);
      ReplaceCreatesNothing(t, order[0], p);
    }
  }

  // ---- nothing else changes ------------------------------------------------------------------

  /** A piece of the input: a stretch kept as it is, or a whole pattern that was redacted. */
  datatype Piece = Kept(text: string) | Redacted(text: string) {
    /** What the output shows for the piece. */
    function Shown(): string {
      if Kept? then text else MARKER
    }
  }

  /** The text the pieces were cut from. */
  function Source(ps: seq<Piece>): string {
    if ps == [] then "" else ps[0].text + Source(ps[1..])
  }

  /** The same pieces with one marker for each redacted pattern. */
  function Target(ps: seq<Piece>): string {
    if ps == [] then "" else ps[0].Shown() + Target(ps[1..])
  }

  /**
   One simultaneous substitution, computed on the original text alone: the first pattern claims its
   leftmost occurrences, and each stretch between them is left to the remaining patterns.
   It never looks at a marker.
   */
  function Cut(order: seq<string>, t: string): seq<Piece>
    requires "" !in order
    decreases |order|, |t|
  {
    if order == [] then [Kept(t)]
    else
      var i := Find(t, order[0]);
      if i == -1 then Cut(order[1..], t)
      else Cut(order[1..], t[..i]) + [Redacted(order[0])] + Cut(order, t[i + |order[0]|..])
  }

  lemma {:induction false} SourceConcat(a: seq<Piece>, b: seq<Piece>)
    ensures Source(a + b) == Source(a) + Source(b)
  {
    if a == [] {
      assert a + b == b;
    } else {
      ConsConcat(a, b);
      SourceConcat(a[1..], b);
      Associate(a[0].text, Source(a[1..]), Source(b));
    }
  }

  lemma {:induction false} TargetConcat(a: seq<Piece>, b: seq<Piece>)
    ensures Target(a + b) == Target(a) + Target(b)
  {
    if a == [] {
      assert a + b == b;
    } else {
      ConsConcat(a, b);
      TargetConcat(a[1..], b);
      Associate(a[0].Shown(), Target(a[1..]), Target(b));
    }
  }

  lemma PieceFirst(x: Piece, rest: seq<Piece>)
    ensures Source([x] + rest) == x.text + Source(rest)
    ensures Target([x] + rest) == x.Shown() + Target(rest)
  {
    assert ([x] + rest)[1..] == rest;
  }

  lemma PiecesAround(a: seq<Piece>, x: Piece, b: seq<Piece>)
    ensures Source(a + [x] + b) == Source(a) + x.text + Source(b)
    ensures Target(a + [x] + b) == Target(a) + x.Shown() + Target(b)
  {
    assert a + [x] + b == a + ([x] + b);
    SourceConcat(a, [x] + b);
    TargetConcat(a, [x] + b);
    PieceFirst(x, b);
    Associate(Source(a), x.text, Source(b));
    Associate(Target(a), x.Shown(), Target(b));
  }

  /** The cut loses nothing: it is a partition of the text, and redacts only listed patterns. */
  lemma {:induction false} CutPartitions(order: seq<string>, t: string)
    requires "" !in order
    ensures Source(Cut(order, t)) == t
    ensures forall x | x in Cut(order, t) && x.Redacted? :: x.text in order
    decreases |order|, |t|
  {
    if order == [] {
    } else if !Occurs(order[0], t) {
      CutPartitions(order[1..], t);
    } else {
      var p := order[0];
      var left, rest := SplitAtFind(t, p);
      CutPartitions(order[1..], left);
      CutPartitions(order, rest);
      PiecesAround(Cut(order[1..], left), Redacted(p), Cut(order, rest));
    }
  }

  /** The multi-pass loop over rewritten text equals the one substitution on the original text. */
  lemma {:induction false} PassesAreOneSubstitution(order: seq<string>, t: string)
    requires AllSafe(order)
    ensures Passes(order, t) == Target(Cut(order, t))
    decreases |order|, |t|
  {
    if order == [] {
    } else if !Occurs(order[0], t) {
      PassesAreOneSubstitution(order[1..], t);
    } else {
      var p := order[0];
      assert p in order;
      var left, rest := SplitAtFind(t, p);
      PassesAreOneSubstitution(order[1..], left);
      PassesAreOneSubstitution(order, rest);
      PassesAcross(order[1..], left, MARKER, Replace(rest, p));
      PiecesAround(Cut(order[1..], left), Redacted(p), Cut(order, rest));
    }
  }

  /** On the two sides of a marker the passes find what they find on each side alone. */
  lemma {:induction false} HitsAcross(order: seq<string>, a: string, c: string, p: string)
    requires AllSafe(order)
    ensures p in Hits(order, a + MARKER + c) <==> p in Hits(order, a) || p in Hits(order, c)
  {
    if order == [] {
    } else {
      var q := order[0];
      assert q in order;
      ReplaceAcross(a, MARKER, c, q);
      OccursAcross(a, MARKER, c, q);
      HitsAcross(order[1..], Replace(a, q), Replace(c, q), p);
    }
  }

  /** A pass scores a hit exactly when the substitution redacts its pattern somewhere. */
  lemma {:induction false} HitsAreRedacted(order: seq<string>, t: string, p: string)
    requires AllSafe(order)
    ensures p in Hits(order, t) <==> Redacted(p) in Cut(order, t)
    decreases |order|, |t|
  {
    if order == [] {
    } else if !Occurs(order[0], t) {
      HitsAreRedacted(order[1..], t, p);
    } else {
      var q := order[0];
      assert q in order;
      var left, rest := SplitAtFind(t, q);
      HitsAcross(order[1..], left, Replace(rest, q), p);
      HitsAreRedacted(order[1..], left, p);
      HitsAreRedacted(order, rest, p);
    }
  }

  // ---- longest first -------------------------------------------------------------------------

  predicate LongestFirst(order: seq<string>) {
    forall i, j | 0 <= i < j < |order| :: |order[i]| >= |order[j]|
  }

  lemma PassesOnClean(order: seq<string>, t: string)
    requires "" !in order
    requires forall p | p in order :: !Occurs(p, t)
    ensures Passes(order, t) == t
  {
    NoHits(order, t);
  }

  /** A listed pattern on its own becomes exactly one marker: no shorter pattern gets at it first. */
  lemma {:induction false} WholePatternRedacted(order: seq<string>, x: string)
    requires AllSafe(order) && LongestFirst(order) && x in order
    ensures Passes(order, x) == MARKER
  {
    var p := order[0];
    assert p in order;
    if p == x {
      assert At(x, 0, x);
      assert Find(x, x) == 0;
      assert Replace(x, x) == MARKER;
      forall q | q in order[1..] ensures !Occurs(q, MARKER) {
        SafeNotInMarker(q);
      }
      assert "" !in order;
      PassesOnClean(order[1..], MARKER);
    } else {
      var j :| 0 <= j < |order| && order[j] == x;
      assert |order[0]| >= |order[j]|;
      if Occurs(p, x) { OccursNeedsRoom(p, x); }
      WholePatternRedacted(order[1..], x);
    }
  }

  lemma SafeNotInMarker(q: string)
    requires MarkerSafe(q)
    ensures !Occurs(q, MARKER)
  {
    OccursAcross("", MARKER, "", q);
    assert "" + MARKER + "" == MARKER;
    if Occurs(q, "") { OccursNeedsRoom(q, ""); }
  }

  /** A text of secrets with something between each two: head, then (secret, separator) pairs. */
  datatype Item = Item(secret: string, after: string)

  function Joined(head: string, items: seq<Item>): string
    decreases |items|
  {
    if items == [] then head else head + items[0].secret + Joined(items[0].after, items[1..])
  }

  function Masked(head: string, items: seq<Item>): string
    decreases |items|
  {
    if items == [] then head else head + MARKER + Masked(items[0].after, items[1..])
  }

  /** No character of `s` is in any listed pattern. */
  predicate Foreign(order: seq<string>, s: string) {
    forall p | p in order :: forall c | c in s :: c !in p
  }

  /** The separators: every one foreign, and none empty except possibly the last. */
  predicate Separated(order: seq<string>, items: seq<Item>) {
    forall k | 0 <= k < |items| ::
      && items[k].secret in order
      && Foreign(order, items[k].after)
      && (k + 1 < |items| ==> items[k].after != "")
  }

  lemma ForeignIsBarrier(order: seq<string>, s: string)
    requires Foreign(order, s) && "" !in order
    ensures forall p | p in order && s != "" :: Avoids(p, s)
    ensures Passes(order, s) == s
  {
    forall p, d | p in order && s != "" && -|p| < d < |s| ensures !Agrees(p, s, d) {
      var k := if d >= 0 then 0 else -d;
      assert s[k + d] in s;
      assert p[k] in p;
    }
    forall p | p in order ensures !Occurs(p, s) {
      assert p[0] in p;
      if Occurs(p, s) { OccursNeedsRoom(p, s); }
    }
    PassesOnClean(order, s);
  }

  lemma NothingInFront(a: string, b: string)
    ensures "" + a + b == a + b
  {
  }

  /** A barrier in front is kept as it is, and does not affect what follows. */
  lemma PassesBehind(order: seq<string>, b: string, t: string)
    requires "" !in order && b != "" && forall p | p in order :: Avoids(p, b)
    ensures Passes(order, b + t) == b + Passes(order, t)
  {
    PassesAcross(order, "", b, t);
    PassesOnEmpty(order);
    NothingInFront(b, t);
    NothingInFront(b, Passes(order, t));
  }

  lemma Behind(order: seq<string>, head: string, t: string)
    requires "" !in order && Foreign(order, head)
    ensures Passes(order, head + t) == head + Passes(order, t)
  {
    if head == "" {
      assert head + t == t;
      assert head + Passes(order, t) == Passes(order, t);
    } else {
      ForeignIsBarrier(order, head);
      PassesBehind(order, head, t);
    }
  }

  lemma {:induction false} SecretThenRest(order: seq<string>, x: string, after: string, rest: seq<Item>)
    requires AllSafe(order) && LongestFirst(order) && x in order
    requires Foreign(order, after) && Separated(order, rest) && (rest != [] ==> after != "")
    ensures Passes(order, x + Joined(after, rest)) == MARKER + Masked(after, rest)
    decreases |rest|, 1
  {
    WholePatternRedacted(order, x);
    if after == "" {
      assert x + after == x;
    } else {
      var tail := Joined("", rest);
      NoFragments(order, "", rest);
      JoinedHead(after, rest);
      ForeignIsBarrier(order, after);
      PassesAcross(order, x, after, tail);
      Associate(x, after, tail);
      Associate(MARKER, after, Masked("", rest));
    }
  }

  /** Longest-first leaves no fragment: one whole marker a secret, the separators untouched. */
  lemma {:induction false} NoFragments(order: seq<string>, head: string, items: seq<Item>)
    requires AllSafe(order) && LongestFirst(order)
    requires Foreign(order, head) && Separated(order, items)
    ensures Passes(order, Joined(head, items)) == Masked(head, items)
    decreases |items|, 0
  {
    if items == [] {
      ForeignIsBarrier(order, head);
    } else {
      var x, after, rest := items[0].secret, items[0].after, items[1..];
      SecretThenRest(order, x, after, rest);
      Behind(order, head, x + Joined(after, rest));
      Associate(head, x, Joined(after, rest));
      Associate(head, MARKER, Masked(after, rest));
    }
  }

  lemma JoinedHead(head: string, items: seq<Item>)
    ensures Joined(head, items) == head + Joined("", items)
    ensures Masked(head, items) == head + Masked("", items)
  {
  }

  lemma PassesOnEmpty(order: seq<string>)
    requires "" !in order
    ensures Passes(order, "") == ""
  {
    forall p | p in order ensures !Occurs(p, "") {
      if Occurs(p, "") { OccursNeedsRoom(p, ""); }
    }
    PassesOnClean(order, "");
  }

  // ---- patterns that can overlap the marker --------------------------------------------------

  /** The part of `p` in front of the marker, and the part behind it, when `p` lies at `d`. */
  function Before(p: string, d: int): string
    requires -|p| < d < |MARKER|
  {
    if d < 0 then p[..-d] else ""
  }

  function After(p: string, d: int): string
    requires -|p| < d < |MARKER|
  {
    if d + |p| > |MARKER| then p[|MARKER| - d..] else ""
  }

  /** `z` in the place of the marker. */
  function Around(p: string, d: int, z: string): string
    requires -|p| < d < |MARKER|
  {
    Before(p, d) + z + After(p, d)
  }

  lemma AroundIsShort(p: string, d: int)
    requires p != "" && -|p| < d < |MARKER|
    ensures |Before(p, d)| + |After(p, d)| < |p|
    ensures forall q | Occurs(q, Before(p, d)) || Occurs(q, After(p, d)) :: Occurs(q, p)
  {
    forall q | Occurs(q, Before(p, d)) || Occurs(q, After(p, d)) ensures Occurs(q, p) {
      var lo, hi := |p| - |After(p, d)|, |Before(p, d)|;
      assert Before(p, d) == p[0..hi] && After(p, d) == p[lo..|p|];
      if Occurs(q, Before(p, d)) { OccursInSlice(q, p, 0, hi); }
      if Occurs(q, After(p, d)) { OccursInSlice(q, p, lo, |p|); }
    }
  }

  /** A companion in the place of the marker: a pass for `p` finds nothing, and the pass for the
      companion then puts the marker between what completes it to an occurrence of `p`. */
  lemma CompanionCompletes(p: string, z: string, d: int)
    requires p != "" && -|p| < d < |MARKER| && Agrees(p, MARKER, d)
    requires |z| == |p| && z[0] !in z[1..] && forall c | c in z :: c !in MARKER
    ensures !Occurs(p, Around(p, d, z))
    ensures Replace(Around(p, d, z), z) == Around(p, d, MARKER)
    ensures Occurs(p, Around(p, d, MARKER))
  {
    var t := Around(p, d, z);
    // the part of p inside the marker would have to lie inside z
    forall i ensures !At(t, i, p) {
      Straddles(Before(p, d), z, After(p, d), p, d, i);
    }
    ReplaceAlone(Before(p, d), z, After(p, d));
    Completed(p, d);
  }

  lemma MeetingPlace(p: string) returns (d: int)
    requires p != "" && !MarkerSafe(p)
    ensures -|p| < d < |MARKER| && Agrees(p, MARKER, d)
  {
    d :| -|p| < d < |MARKER| && Agrees(p, MARKER, d);
  }

  lemma Completed(p: string, d: int)
    requires -|p| < d < |MARKER| && Agrees(p, MARKER, d)
    ensures Occurs(p, Around(p, d, MARKER))
  {
    var out := Around(p, d, MARKER);
    var at := if d < 0 then 0 else d;
    assert at + |p| <= |out|;
    forall k | 0 <= k < |p| ensures out[at + k] == p[k] {
      CompletedAt(p, d, k);
    }
    AtIsPointwise(out, at, p);
    assert At(out, at, p);
  }

  lemma CompletedAt(p: string, d: int, k: nat)
    requires -|p| < d < |MARKER| && Agrees(p, MARKER, d) && k < |p|
    ensures var i := k + if d < 0 then 0 else d; var out := Around(p, d, MARKER);
            i < |out| && out[i] == p[k]
  {
    if 0 <= k + d < |MARKER| {
      assert p[k] == MARKER[k + d];
    }
  }

  /** The last place where `p` meets the marker would fall inside `z`. */
  lemma Straddles(before: string, z: string, after: string, p: string, d: int, i: int)
    requires p != "" && -|p| < d < |MARKER| && Agrees(p, MARKER, d)
    requires |before| == (if d < 0 then -d else 0)
    requires |after| == (if d + |p| > |MARKER| then d + |p| - |MARKER| else 0)
    requires |z| > 0 && forall c | c in z :: c !in MARKER
    ensures !At(before + z + after, i, p)
  {
    var t := before + z + after;
    AtIsPointwise(t, i, p);
    var k := |p| - |after| - 1;
    assert p[k] == MARKER[k + d];
    if 0 <= i <= |t| - |p| {
      assert t[i + k] == z[i + k - |before|];
      assert z[i + k - |before|] in z;
    }
  }

  lemma NoMarkerLetters(z: string)
    requires z != "" && forall c | c in z :: c !in MARKER
    ensures MarkerSafe(z)
  {
    assert Foreign([z], MARKER);
    ForeignIsBarrier([z], MARKER);
    assert z in [z];
  }

  lemma ReplaceAlone(a: string, z: string, c: string)
    requires z != "" && z[0] !in z[1..] && |a| < |z| && |c| < |z|
    ensures Replace(a + z + c, z) == a + MARKER + c
  {
    var t := a + z + c;
    assert At(t, |a|, z);
    forall j | 0 <= j < |a| ensures !At(t, j, z) {
      AtIsPointwise(t, j, z);
      var k := |a| - j;
      assert t[j + k] == z[0];
      assert z[k] == z[1..][k - 1];
    }
    assert Find(t, z) == |a|;
    assert t[..|a|] == a && t[|a| + |z|..] == c;
    if Occurs(z, c) { OccursNeedsRoom(z, c); }
    assert Replace(c, z) == c;
  }
}

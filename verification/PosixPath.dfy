/** `posixpath.normpath`, and what it means: a directory walk that stays below the root. */
module PosixPath {

  // ---- splitting and joining -----------------------------------------------------------------

  /** `s.split("/")` */
  function Split(s: string): (r: seq<string>)
    ensures r != []
  {
    if s == "" then [""]
    else
      var rest := Split(s[1..]);
      if s[0] == '/' then [""] + rest else [[s[0]] + rest[0]] + rest[1..]
  }

  /** `"/".join(segs)` */
  function Join(segs: seq<string>): string {
    if segs == [] then "" else if |segs| == 1 then segs[0] else segs[0] + "/" + Join(segs[1..])
  }

  function Slashes(k: nat): string {
    seq(k, i => '/')
  }

  // ---- normpath ------------------------------------------------------------------------------

  /** The number of slashes an absolute path keeps: exactly two stay two, more become one. */
  function InitialSlashes(path: string): nat {
    if |path| == 0 || path[0] != '/' then 0
    else if |path| >= 2 && path[1] == '/' && !(|path| >= 3 && path[2] == '/') then 2
    else 1
  }

  /** The loop over the components, with the ones kept so far. */
  function Components(initial: nat, comps: seq<string>, kept: seq<string>): seq<string>
    decreases |comps|
  {
    if comps == [] then kept
    else
      var c := comps[0];
      Components(initial, comps[1..],
                 if c == "" || c == "." then kept
                 else if c != ".." || (initial == 0 && kept == []) || (kept != [] && kept[|kept| - 1] == "..")
                 then kept + [c]
                 else if kept != [] then kept[..|kept| - 1]
                 else kept)
  }

  function NormPath(path: string): string {
    if path == "" then "."
    else
      var k := InitialSlashes(path);
      var text := Slashes(k) + Join(Components(k, Split(path), []));
      if text == "" then "." else text
  }

  /** Exactly two leading slashes are kept, one or more than two count as one. */
  lemma LeadingSlashes(k: nat, rest: string)
    requires k >= 1 && (rest == "" || rest[0] != '/')
    ensures InitialSlashes(Slashes(k) + rest) == if k == 2 then 2 else 1
  {
    var path := Slashes(k) + rest;
    assert forall i | 0 <= i < k :: path[i] == '/';
    assert |path| > k ==> path[k] == rest[0];
  }

  // ---- what the walk arrives at --------------------------------------------------------------

  /**
   Which segments are left when ".." cancels what precedes it, read from the right:
   the segments that no later ".." cancels, and how many ".." find nothing to cancel.
   */
  function Survivors(segs: seq<string>): (seq<string>, nat) {
    if segs == [] then ([], 0)
    else
      var (kept, up) := Survivors(segs[1..]);
      if segs[0] == "" || segs[0] == "." then (kept, up)
      else if segs[0] == ".." then (kept, up + 1)
      else if up > 0 then (kept, up - 1)
      else ([segs[0]] + kept, 0)
  }

  /** A name, as opposed to an empty or a dot segment. */
  predicate Name(seg: string) {
    seg != "" && seg != "." && seg != ".." && '/' !in seg
  }

  predicate Names(segs: seq<string>) {
    forall s | s in segs :: Name(s)
  }

  lemma {:induction false} SplitHasNoSlash(s: string)
    ensures forall seg | seg in Split(s) :: '/' !in seg
  {
    if s == "" {
    } else {
      SplitHasNoSlash(s[1..]);
      var rest := Split(s[1..]);
      assert rest[0] in rest;
      assert forall seg | seg in rest[1..] :: seg in rest;
    }
  }

  lemma {:induction false} SurvivorsAreNames(segs: seq<string>)
    requires forall seg | seg in segs :: '/' !in seg
    ensures Names(Survivors(segs).0)
  {
    if segs == [] {
    } else {
      SurvivorsAreNames(segs[1..]);
    }
  }

  /** From a directory below the root the loop goes where the survivors say: up as often as they
      do but not above the root, then down. */
  lemma {:induction false} AbsoluteWalk(initial: nat, comps: seq<string>, kept: seq<string>)
    requires initial > 0 && ".." !in kept
    ensures Components(initial, comps, kept) ==
            kept[..if |kept| >= Survivors(comps).1 then |kept| - Survivors(comps).1 else 0] + Survivors(comps).0
    decreases |comps|
  {
    if comps == [] {
      assert kept[..|kept|] == kept;
    } else {
      var c, rest := comps[0], comps[1..];
      if c == "" || c == "." {
        AbsoluteWalk(initial, rest, kept);
      } else if c != ".." {
        AbsoluteWalk(initial, rest, kept + [c]);
      } else if kept == [] {
        AbsoluteWalk(initial, rest, kept);
      } else {
        assert forall k: nat | k <= |kept| - 1 :: kept[..|kept| - 1][..k] == kept[..k];
        AbsoluteWalk(initial, rest, kept[..|kept| - 1]);
      }
    }
  }

  // ---- normal paths --------------------------------------------------------------------------

  function Render(k: nat, segs: seq<string>): string {
    Slashes(k) + Join(segs)
  }

  /** One or two slashes and names: what normalisation is meant to produce. */
  predicate IsRendering(path: string, k: nat, segs: seq<string>) {
    1 <= k <= 2 && Names(segs) && path == Render(k, segs)
  }

  /** An absolute path normalises to its initial slashes and the survivors of its segments. */
  lemma NormPathIsWalk(path: string)
    requires path != "" && path[0] == '/'
    ensures NormPath(path) == Render(InitialSlashes(path), Survivors(Split(path)).0)
    ensures IsRendering(NormPath(path), InitialSlashes(path), Survivors(Split(path)).0)
  {
    AbsoluteWalk(InitialSlashes(path), Split(path), []);
    SplitHasNoSlash(path);
    SurvivorsAreNames(Split(path));
    var down := Survivors(Split(path)).0;
    assert [] + down == down;
    assert |NormPath(path)| >= 1;
  }

  lemma SplitCons(c: char, s: string)
    ensures Split([c] + s) == if c == '/' then [""] + Split(s) else [[c] + Split(s)[0]] + Split(s)[1..]
  {
    assert ([c] + s)[1..] == s;
  }

  lemma {:induction false} SplitConcat(x: string, y: string)
    ensures Split(x + "/" + y) == Split(x) + Split(y)
  {
    if x == "" {
      assert "" + "/" + y == ['/'] + y;
      SplitCons('/', y);
    } else {
      var rest := x[1..] + "/" + y;
      assert x + "/" + y == [x[0]] + rest;
      assert x == [x[0]] + x[1..];
      SplitConcat(x[1..], y);
      SplitCons(x[0], rest);
      SplitCons(x[0], x[1..]);
      HeadOfConcat(Split(x[1..]), Split(y), x[0]);
    }
  }

  lemma HeadOfConcat(a: seq<string>, b: seq<string>, c: char)
    requires a != []
    ensures [""] + (a + b) == [""] + a + b
    ensures [[c] + (a + b)[0]] + (a + b)[1..] == [[c] + a[0]] + a[1..] + b
  {
  }

  lemma {:induction false} SplitSegment(seg: string)
    requires '/' !in seg
    ensures Split(seg) == [seg]
  {
    if seg == "" {
    } else {
      SplitSegment(seg[1..]);
      assert [seg[0]] + seg[1..] == seg;
    }
  }

  lemma {:induction false} SplitJoin(segs: seq<string>)
    requires segs != [] && forall seg | seg in segs :: '/' !in seg
    ensures Split(Join(segs)) == segs
  {
    SplitSegment(segs[0]);
    if |segs| == 1 {
    } else {
      SplitJoin(segs[1..]);
      SplitConcat(segs[0], Join(segs[1..]));
    }
  }

  lemma {:induction false} JoinSplit(s: string)
    ensures Join(Split(s)) == s
  {
    if s == "" {
    } else {
      JoinSplit(s[1..]);
      var rest := Split(s[1..]);
      JoinEmpty(rest);
      JoinCons(s[0], rest[0], rest[1..]);
      assert rest == [rest[0]] + rest[1..];
      assert s == [s[0]] + s[1..];
    }
  }

  lemma JoinEmpty(segs: seq<string>)
    requires segs != []
    ensures Join([""] + segs) == "/" + Join(segs)
  {
    assert ([""] + segs)[1..] == segs;
    assert "" + "/" + Join(segs) == "/" + Join(segs);
  }

  lemma JoinCons(c: char, seg: string, segs: seq<string>)
    ensures Join([[c] + seg] + segs) == [c] + Join([seg] + segs)
  {
    assert ([[c] + seg] + segs)[1..] == segs && ([seg] + segs)[1..] == segs;
    if segs != [] {
      assert [c] + seg + "/" + Join(segs) == [c] + (seg + "/" + Join(segs));
    }
  }

  lemma {:induction false} JoinConcat(a: seq<string>, b: seq<string>)
    requires a != [] && b != []
    ensures Join(a + b) == Join(a) + "/" + Join(b)
  {
    if |a| == 1 {
      assert (a + b)[1..] == b;
    } else {
      assert (a + b)[1..] == a[1..] + b;
      JoinConcat(a[1..], b);
      assert Join(a + b) == a[0] + "/" + Join(a[1..] + b);
      assert a[0] + "/" + (Join(a[1..]) + "/" + Join(b)) == a[0] + "/" + Join(a[1..]) + "/" + Join(b);
    }
  }

  function Empties(k: nat): seq<string> {
    seq(k, i => "")
  }

  /** The pieces of a rendered path: an empty one a slash, then the names. */
  lemma {:induction false} SplitRender(k: nat, segs: seq<string>)
    requires forall seg | seg in segs :: '/' !in seg
    ensures Split(Render(k, segs)) == Empties(k) + (if segs == [] then [""] else segs)
  {
    if k == 0 {
      assert Render(0, segs) == Join(segs);
      if segs != [] { SplitJoin(segs); }
      assert Empties(0) == [];
    } else {
      SplitRender(k - 1, segs);
      var t := Render(k, segs);
      assert t[0] == '/';
      assert t[1..] == Render(k - 1, segs);
      assert Empties(k) == [""] + Empties(k - 1);
    }
  }

  lemma {:induction false} SurvivorsOfNames(segs: seq<string>)
    requires Names(segs)
    ensures Survivors(segs) == (segs, 0)
  {
    if segs == [] {
    } else {
      SurvivorsOfNames(segs[1..]);
      assert segs[0] in segs && [segs[0]] + segs[1..] == segs;
    }
  }

  lemma {:induction false} SurvivorsSkipEmpties(k: nat, segs: seq<string>)
    ensures Survivors(Empties(k) + segs) == Survivors(segs)
  {
    if k == 0 {
      assert Empties(0) + segs == segs;
    } else {
      assert (Empties(k) + segs)[1..] == Empties(k - 1) + segs;
      SurvivorsSkipEmpties(k - 1, segs);
    }
  }

  lemma FirstOfJoin(segs: seq<string>)
    requires segs != [] && segs[0] != ""
    ensures Join(segs) != "" && Join(segs)[0] == segs[0][0]
  {
  }

  lemma SlashesOfRender(k: nat, segs: seq<string>)
    requires 1 <= k <= 2 && Names(segs)
    ensures InitialSlashes(Render(k, segs)) == k
  {
    if segs != [] {
      assert segs[0] in segs;
      FirstOfJoin(segs);
      assert segs[0][0] in segs[0];
      assert Render(k, segs)[k] == Join(segs)[0];
    }
  }

  /** Slash count and names can be read off a normal path, and normalising it changes nothing. */
  lemma NormalStays(k: nat, segs: seq<string>)
    requires 1 <= k <= 2 && Names(segs)
    ensures NormPath(Render(k, segs)) == Render(k, segs)
    ensures InitialSlashes(Render(k, segs)) == k && Survivors(Split(Render(k, segs))).0 == segs
  {
    SlashesOfRender(k, segs);
    SplitRender(k, segs);
    NormPathIsWalk(Render(k, segs));
    SurvivorsSkipEmpties(k, if segs == [] then [""] else segs);
    SurvivorsOfNames(segs);
    assert Survivors([""]) == Survivors([]);
  }
}

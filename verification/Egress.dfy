/**
 The egress predicate: a URL resolves to scheme, host, port and normalised path, and is allowed when
 some allowlist entry resolves to the same authority and a path that covers its own.
 It starts from URLs that have been split into parts.
 */
module Egress {
  import opened BaseEncodings
  import opened Utf8
  import opened PercentCoding
  import opened PosixPath

  datatype Port = Absent | Number(n: int) | Malformed

  /** A split URL with scheme and host in lower case, or one that cannot be split.
      An empty string stands for a missing host, user name or password. */
  datatype Url =
    | Unsplittable
    | Parts(scheme: string, host: string, username: string, password: string, port: Port, path: string)

  datatype Target = Target(scheme: string, host: string, port: int, path: string)

  function DefaultPort(scheme: string): Option<int> {
    if scheme == "http" then Some(80) else if scheme == "https" then Some(443) else None
  }

  /** Decoding comes first, then normalisation, then the leading slash if there is none. */
  function ResolvePath(path: string): string {
    var norm := NormPath(Unquote(if path == "" then "/" else path));
    if "/" <= norm then norm else "/" + norm
  }

  /** `None` for whatever cannot be resolved. */
  function AuthorityPath(url: Url): Option<Target> {
    match url
    case Unsplittable => None
    case Parts(scheme, host, username, password, port, path) =>
      if DefaultPort(scheme).None? then None
      else if host == "" then None
      else if username != "" || password != "" then None
      else match port
        case Malformed => None
        case Number(n) => Some(Target(scheme, host, n, ResolvePath(path)))
        case Absent => Some(Target(scheme, host, DefaultPort(scheme).value, ResolvePath(path)))
  }

  predicate PathAllowed(target: string, entry: string) {
    if entry == "/" then true else target == entry || entry + "/" <= target
  }

  /** The entry lets the target through: same authority, and a path that covers its path. */
  predicate Covers(entry: Target, target: Target) {
    && target.scheme == entry.scheme && target.host == entry.host && target.port == entry.port
    && PathAllowed(target.path, entry.path)
  }

  predicate AllowedFrom(target: Target, allowlist: seq<Url>) {
    if allowlist == [] then false
    else
      var allowed := AuthorityPath(allowlist[0]);
      if allowed.Some? && Covers(allowed.value, target) then true else AllowedFrom(target, allowlist[1..])
  }

  predicate UrlEgressAllowed(url: Url, allowlist: seq<Url>) {
    var target := AuthorityPath(url);
    if target.None? then false else AllowedFrom(target.value, allowlist)
  }

  // ---- authorities -----------------------------------------------------------------------

  /** What a URL needs to be matched at all: a web scheme, a host, no user information, a port that
      is a number if there is one. */
  predicate Resolvable(url: Url) {
    && url.Parts? && url.scheme in {"http", "https"} && url.host != ""
    && url.username == "" && url.password == "" && !url.port.Malformed?
  }

  function EffectivePort(url: Url): int
    requires Resolvable(url)
  {
    if url.port.Number? then url.port.n else if url.scheme == "http" then 80 else 443
  }

  lemma ResolvesExactly(url: Url)
    ensures AuthorityPath(url) ==
            if Resolvable(url)
            then Some(Target(url.scheme, url.host, EffectivePort(url), ResolvePath(url.path)))
            else None
  {
  }

  /** A missing port is the scheme's well-known one, spelled out or not. */
  lemma DefaultPortsExplicit(url: Url)
    requires url.Parts?
    ensures url.scheme == "http" ==> AuthorityPath(url.(port := Absent)) == AuthorityPath(url.(port := Number(80)))
    ensures url.scheme == "https" ==> AuthorityPath(url.(port := Absent)) == AuthorityPath(url.(port := Number(443)))
  {
  }

  /** A URL with user information is never allowed, and allows nothing as an entry. */
  lemma UserinfoNeverAllowed(url: Url, allowlist: seq<Url>, other: Url)
    requires url.Parts? && (url.username != "" || url.password != "")
    ensures !UrlEgressAllowed(url, allowlist)
    ensures UrlEgressAllowed(other, allowlist + [url]) <==> UrlEgressAllowed(other, allowlist)
  {
    MalformedEntriesIgnored(other, allowlist, [url]);
  }

  // ---- the search ----------------------------------------------------------------------------

  predicate SomeEntryCovers(target: Target, allowlist: seq<Url>) {
    exists e | e in allowlist :: AuthorityPath(e).Some? && Covers(AuthorityPath(e).value, target)
  }

  lemma {:induction false} SearchFindsEntry(target: Target, allowlist: seq<Url>)
    ensures AllowedFrom(target, allowlist) <==> SomeEntryCovers(target, allowlist)
  {
    if allowlist == [] {
    } else {
      SearchFindsEntry(target, allowlist[1..]);
      assert forall e :: e in allowlist <==> e == allowlist[0] || e in allowlist[1..];
    }
  }

  /** What an allowlist entry counts for, whatever its position. */
  ghost predicate SameEntries(xs: seq<Url>, ys: seq<Url>) {
    forall t: Target ::
      (exists e | e in xs :: AuthorityPath(e) == Some(t)) <==> (exists e | e in ys :: AuthorityPath(e) == Some(t))
  }

  /** Order, repetition and malformed entries make no difference to any decision. */
  lemma OnlyResolvedEntriesCount(url: Url, xs: seq<Url>, ys: seq<Url>)
    requires SameEntries(xs, ys)
    ensures UrlEgressAllowed(url, xs) <==> UrlEgressAllowed(url, ys)
  {
    var target := AuthorityPath(url);
    if target.Some? {
      SearchFindsEntry(target.value, xs);
      SearchFindsEntry(target.value, ys);
      Transfer(target.value, xs, ys);
      Transfer(target.value, ys, xs);
    }
  }

  lemma Transfer(target: Target, xs: seq<Url>, ys: seq<Url>)
    requires SameEntries(xs, ys)
    ensures SomeEntryCovers(target, xs) ==> SomeEntryCovers(target, ys)
  {
    if SomeEntryCovers(target, xs) {
      var e :| e in xs && AuthorityPath(e).Some? && Covers(AuthorityPath(e).value, target);
      var t := AuthorityPath(e).value;
      var e' :| e' in ys && AuthorityPath(e') == Some(t);
    }
  }

  lemma MalformedEntriesIgnored(url: Url, allowlist: seq<Url>, bad: seq<Url>)
    requires forall e | e in bad :: AuthorityPath(e) == None
    ensures UrlEgressAllowed(url, allowlist + bad) <==> UrlEgressAllowed(url, allowlist)
  {
    var target := AuthorityPath(url);
    if target.Some? {
      SearchFindsEntry(target.value, allowlist + bad);
      SearchFindsEntry(target.value, allowlist);
      assert forall e :: e in allowlist + bad <==> e in allowlist || e in bad;
    }
  }

  // ---- paths ---------------------------------------------------------------------------------

  /** The segments a decoded path walks to, from the root. */
  function Walked(path: string): seq<string> {
    Survivors(Split(Unquote(path))).0
  }

  /** The segments of a raw path, each decoded on its own and cut at the slashes it spells. */
  function DecodedSegments(segs: seq<string>): seq<string> {
    if segs == [] then [] else Split(Unquote(segs[0])) + DecodedSegments(segs[1..])
  }

  lemma {:induction false} SegmentsDecode(segs: seq<string>)
    requires segs != []
    ensures Split(Unquote(Join(segs))) == DecodedSegments(segs)
  {
    if |segs| == 1 {
      assert segs[1..] == [];
    } else {
      SegmentsDecode(segs[1..]);
      UnquoteAcrossSlash(segs[0], Join(segs[1..]));
      SplitConcat(Unquote(segs[0]), Unquote(Join(segs[1..])));
    }
  }

  /** The walk of a path is that of its raw segments, each decoded on its own. A segment decodes to a
      single one exactly when it has no escaped slash; whatever else it spells, a malformed sequence
      too, makes no slash, no dot and no other ASCII character that is not there. */
  lemma WalkedExactly(path: string)
    ensures Walked(path) == Survivors(DecodedSegments(Split(path))).0
    ensures forall seg | seg in Split(path) ::
              && AsciiOf(Unquote(seg)) == SpelledAscii(seg)
              && (Split(Unquote(seg)) == [Unquote(seg)] <==> '/' !in SpelledAscii(seg))
  {
    JoinSplit(path);
    SegmentsDecode(Split(path));
    forall seg | seg in Split(path)
      ensures AsciiOf(Unquote(seg)) == SpelledAscii(seg)
      ensures Split(Unquote(seg)) == [Unquote(seg)] <==> '/' !in SpelledAscii(seg)
    {
      UnquoteAscii(seg);
      if '/' !in SpelledAscii(seg) {
        SplitSegment(Unquote(seg));
      } else {
        SplitHasNoSlash(Unquote(seg));
        assert Unquote(seg) in [Unquote(seg)];
      }
    }
  }

  /** Empty or with a slash in front, as the path of every split URL with a host is. */
  predicate Absolute(path: string) {
    path == "" || path[0] == '/'
  }

  /** How many slashes are kept in front. */
  function Depth(path: string): nat {
    if path == "" then 1 else InitialSlashes(Unquote(path))
  }

  lemma EmptyPath()
    ensures Unquote("") == "" && Walked("") == [] && Unquote("/") == "/"
    ensures Walked("/") == [] && InitialSlashes("/") == 1
  {
    UnquoteWithoutPercent("");
    UnquoteWithoutPercent("/");
    assert Split("/") == [""] + Split("/"[1..]) == ["", ""];
    assert ["", ""][1..] == [""] && [""][1..] == [];
    assert Survivors([""]) == ([], 0);
    assert Survivors(["", ""]) == ([], 0);
  }

  /** A path of a split URL resolves to where its decoded segments walk to: names only, and no way
      above the root. */
  lemma ResolvedPathIsWalk(path: string)
    requires Absolute(path)
    ensures ResolvePath(path) == Render(Depth(path), Walked(path))
    ensures IsRendering(ResolvePath(path), Depth(path), Walked(path))
    ensures NormPath(ResolvePath(path)) == ResolvePath(path)
  {
    EmptyPath();
    if path != "" { UnquoteKeepsSlash(path); }
    NormPathIsWalk(if path == "" then "/" else Unquote(path));
    NormalStays(Depth(path), Walked(path));
    assert ResolvePath(path)[0] == '/';
  }

  /** For resolved paths the string test is a segment test: an entry lets through what has the same
      number of leading slashes and starts with all of its segments. The entry "/" lets everything
      through, and the entry "//" itself only. */
  lemma PathAllowedExactly(kt: nat, target: seq<string>, ke: nat, entry: seq<string>)
    requires 1 <= kt <= 2 && Names(target) && 1 <= ke <= 2 && Names(entry)
    ensures PathAllowed(Render(kt, target), Render(ke, entry)) <==>
            || (ke == 1 && entry == [])
            || (ke == kt && entry <= target && (entry != [] || target == []))
  {
    var t, e := Render(kt, target), Render(ke, entry);
    if ke == 1 && entry == [] {
      assert e == "/";
    } else {
      NormalStays(kt, target);
      NormalStays(ke, entry);
      NotRoot(ke, entry);
      if e + "/" <= t {
        PrefixIsSegments(kt, target, ke, entry);
      }
      if ke == kt && entry <= target && entry != [] && entry != target {
        SegmentsArePrefix(kt, target, entry);
      }
    }
  }

  lemma NotRoot(k: nat, segs: seq<string>)
    requires 1 <= k <= 2 && Names(segs) && !(k == 1 && segs == [])
    ensures Render(k, segs) != "/"
  {
    if segs != [] {
      assert segs[0] in segs;
      FirstOfJoin(segs);
      assert |Render(k, segs)| == k + |Join(segs)|;
    }
  }

  lemma PrefixIsSegments(kt: nat, target: seq<string>, ke: nat, entry: seq<string>)
    requires 1 <= kt <= 2 && Names(target) && 1 <= ke <= 2 && Names(entry)
    requires !(ke == 1 && entry == [])
    requires Render(ke, entry) + "/" <= Render(kt, target)
    ensures ke == kt && entry < target && entry != []
  {
    var t, e := Render(kt, target), Render(ke, entry);
    var rest := t[|e| + 1..];
    assert t == e + "/" + rest;
    SplitConcat(e, rest);
    SplitRender(kt, target);
    SplitRender(ke, entry);
    SlashesOfRender(kt, target);
    SlashesOfRender(ke, entry);
    NoThirdSlash(kt, target);
    ThirdSlash(rest);
    var st := Empties(kt) + (if target == [] then [""] else target);
    assert st == Empties(ke) + entry + Split(rest);
    SameLead(kt, target, ke, entry, Split(rest));
  }

  lemma ThirdSlash(rest: string)
    ensures "///" <= Render(2, []) + "/" + rest
  {
    var t := Render(2, []) + "/" + rest;
    assert t[..3] == "///";
  }

  lemma NoThirdSlash(k: nat, segs: seq<string>)
    requires 1 <= k <= 2 && Names(segs)
    ensures !("///" <= Render(k, segs))
  {
    var t := Render(k, segs);
    if segs == [] {
      assert |t| == k;
    } else {
      assert segs[0] in segs;
      FirstOfJoin(segs);
      assert segs[0][0] in segs[0];
      assert t[k] == Join(segs)[0];
      assert "///"[k] == '/';
    }
  }

  lemma SameLead(kt: nat, target: seq<string>, ke: nat, entry: seq<string>, rest: seq<string>)
    requires 1 <= kt <= 2 && Names(target) && 1 <= ke <= 2 && Names(entry) && entry != [] && rest != []
    requires Empties(kt) + (if target == [] then [""] else target) == Empties(ke) + entry + rest
    ensures ke == kt && entry < target
  {
    var st := Empties(kt) + (if target == [] then [""] else target);
    assert entry[0] in entry && st[ke] == entry[0];
    assert entry[0] != "";
    assert target != [];
    assert target[0] in target && st[kt] == target[0];
    assert forall i | 0 <= i < ke :: (Empties(ke) + entry + rest)[i] == "";
    assert forall i | 0 <= i < kt :: st[i] == "";
    assert kt == ke;
    assert st[kt..] == target && (Empties(ke) + entry + rest)[ke..] == entry + rest;
  }

  lemma SegmentsArePrefix(k: nat, target: seq<string>, entry: seq<string>)
    requires entry <= target && entry != [] && entry != target
    ensures Render(k, entry) + "/" <= Render(k, target)
  {
    var more := target[|entry|..];
    assert target == entry + more;
    JoinConcat(entry, more);
    assert Render(k, target) == Render(k, entry) + "/" + Join(more);
  }

  /** Both can be matched, and name one scheme, host and port. */
  predicate SameAuthority(url: Url, entry: Url) {
    && Resolvable(url) && Resolvable(entry)
    && url.scheme == entry.scheme && url.host == entry.host && EffectivePort(url) == EffectivePort(entry)
  }

  predicate WalksInto(path: string, entry: string) {
    || (Depth(entry) == 1 && Walked(entry) == [])
    || (Depth(entry) == Depth(path) && Walked(entry) <= Walked(path)
        && (Walked(entry) != [] || Walked(path) == []))
  }

  /** The whole decision in terms of URL parts and decoded segments: some entry has the target's
      scheme, host and port, and its walked segments in front of the target's. */
  lemma EgressDecision(url: Url, allowlist: seq<Url>)
    requires url.Parts? ==> Absolute(url.path)
    requires forall e | e in allowlist && e.Parts? :: Absolute(e.path)
    ensures UrlEgressAllowed(url, allowlist) <==>
            exists e | e in allowlist :: SameAuthority(url, e) && WalksInto(url.path, e.path)
  {
    ResolvesExactly(url);
    if Resolvable(url) {
      SearchFindsEntry(AuthorityPath(url).value, allowlist);
      forall e | e in allowlist
        ensures (AuthorityPath(e).Some? && Covers(AuthorityPath(e).value, AuthorityPath(url).value))
           <==> (SameAuthority(url, e) && WalksInto(url.path, e.path))
      {
        EntryCovers(url, e);
      }
    }
  }

  lemma EntryCovers(url: Url, e: Url)
    requires Resolvable(url) && Absolute(url.path) && (e.Parts? ==> Absolute(e.path))
    ensures AuthorityPath(url).Some?
    ensures (AuthorityPath(e).Some? && Covers(AuthorityPath(e).value, AuthorityPath(url).value))
       <==> (SameAuthority(url, e) && WalksInto(url.path, e.path))
  {
    ResolvesExactly(url);
    ResolvesExactly(e);
    if Resolvable(e) {
      ResolvedPathIsWalk(url.path);
      ResolvedPathIsWalk(e.path);
      PathAllowedExactly(Depth(url.path), Walked(url.path), Depth(e.path), Walked(e.path));
    }
  }

  // ---- coverage is a partial order -----------------------------------------------------------

  lemma ResolvedStartsWithSlash(url: Url)
    requires AuthorityPath(url).Some?
    ensures "/" <= AuthorityPath(url).value.path
  {
  }

  predicate Rooted(t: Target) {
    "/" <= t.path
  }

  lemma CoversReflexive(t: Target)
    ensures Covers(t, t)
  {
  }

  lemma CoversTransitive(a: Target, b: Target, c: Target)
    requires Rooted(a) && Rooted(b) && Rooted(c) && Covers(a, b) && Covers(b, c)
    ensures Covers(a, c)
  {
    assert a.path == "/" || a.path == b.path || |a.path| < |b.path|;
    if a.path != "/" && b.path != "/" && a.path != b.path && b.path != c.path {
      assert (a.path + "/") <= b.path <= c.path;
    }
  }

  lemma CoversAntisymmetric(a: Target, b: Target)
    requires Rooted(a) && Rooted(b) && Covers(a, b) && Covers(b, a)
    ensures a == b
  {
    assert a.path[0] == '/' && b.path[0] == '/';
  }

  ghost predicate SameDecisions(xs: seq<Url>, ys: seq<Url>) {
    forall url :: UrlEgressAllowed(url, xs) <==> UrlEgressAllowed(url, ys)
  }

  /** Deleting an entry changes no URL's decision exactly when the entry is malformed or a remaining
      entry covers it. */
  lemma RedundantExactly(before: seq<Url>, entry: Url, after: seq<Url>)
    ensures SameDecisions(before + [entry] + after, before + after)
       <==> AuthorityPath(entry).None? || SomeEntryCovers(AuthorityPath(entry).value, before + after)
  {
    var full, rest := before + [entry] + after, before + after;
    assert forall e :: e in full <==> e in rest || e == entry;
    var own := AuthorityPath(entry);
    if own.None? || SomeEntryCovers(own.value, rest) {
      forall url ensures UrlEgressAllowed(url, full) <==> UrlEgressAllowed(url, rest) {
        WithoutRedundant(url, full, rest, entry);
      }
    } else {
      EntryAllowsItself(full, rest, entry);
    }
  }

  lemma WithoutRedundant(url: Url, full: seq<Url>, rest: seq<Url>, entry: Url)
    requires forall e :: e in full <==> e in rest || e == entry
    requires AuthorityPath(entry).None? || SomeEntryCovers(AuthorityPath(entry).value, rest)
    ensures UrlEgressAllowed(url, full) <==> UrlEgressAllowed(url, rest)
  {
    var own, target := AuthorityPath(entry), AuthorityPath(url);
    if target.Some? {
      SearchFindsEntry(target.value, full);
      SearchFindsEntry(target.value, rest);
      if own.Some? && Covers(own.value, target.value) {
        ResolvedStartsWithSlash(entry);
        ResolvedStartsWithSlash(url);
        CoveredThrough(own.value, target.value, rest);
      }
    }
  }

  /** The entry's own URL tells the two lists apart. */
  lemma EntryAllowsItself(full: seq<Url>, rest: seq<Url>, entry: Url)
    requires entry in full && AuthorityPath(entry).Some?
    requires !SomeEntryCovers(AuthorityPath(entry).value, rest)
    ensures UrlEgressAllowed(entry, full) && !UrlEgressAllowed(entry, rest)
  {
    var own := AuthorityPath(entry).value;
    SearchFindsEntry(own, full);
    SearchFindsEntry(own, rest);
    CoversReflexive(own);
  }

  lemma CoveredThrough(middle: Target, target: Target, allowlist: seq<Url>)
    requires Rooted(middle) && Rooted(target)
    requires Covers(middle, target) && SomeEntryCovers(middle, allowlist)
    ensures SomeEntryCovers(target, allowlist)
  {
    var e :| e in allowlist && AuthorityPath(e).Some? && Covers(AuthorityPath(e).value, middle);
    ResolvedStartsWithSlash(e);
    CoversTransitive(AuthorityPath(e).value, middle, target);
  }

  // ---- spellings -----------------------------------------------------------------------------

  /** Two spellings of one path, differing in which characters are escaped and in digit case,
      resolve alike, so the decision is the same for the URL and in the allowlist. */
  lemma SpellingInvariant(url: Url, xs: seq<Spelling>, ys: seq<Spelling>)
    requires url.Parts?
    requires WellSpelled(xs) && WellSpelled(ys) && Meaning(xs) == Meaning(ys)
    ensures AuthorityPath(url.(path := Spell(xs))) == AuthorityPath(url.(path := Spell(ys)))
    ensures forall allowlist :: UrlEgressAllowed(url.(path := Spell(xs)), allowlist)
                           <==> UrlEgressAllowed(url.(path := Spell(ys)), allowlist)
  {
    SpellingsResolveAlike(xs, ys);
  }

  lemma SpellingsResolveAlike(xs: seq<Spelling>, ys: seq<Spelling>)
    requires WellSpelled(xs) && WellSpelled(ys) && Meaning(xs) == Meaning(ys)
    ensures ResolvePath(Spell(xs)) == ResolvePath(Spell(ys))
  {
    UnquoteUndoesSpelling(xs);
    UnquoteUndoesSpelling(ys);
    SpelledEmpty(xs);
    SpelledEmpty(ys);
  }

  lemma SpelledEmpty(xs: seq<Spelling>)
    requires WellSpelled(xs)
    ensures Spell(xs) == "" <==> Meaning(xs) == ""
  {
    if xs != [] {
      assert |SpellOne(xs[0])| > 0;
    }
  }
}

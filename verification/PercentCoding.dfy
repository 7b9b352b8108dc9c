/** Percent-decoding (section 2.1 of RFC 3986) as the standard library's `unquote` does it. */
module PercentCoding {
  import opened Sequences
  import opened Utf8
  import opened BaseEncodings

  predicate Ascii(c: char) {
    c as int < 0x80
  }

  /** A percent sign and two hexadecimal digits stand at the front of `s`. */
  predicate Escape(s: string) {
    |s| >= 3 && s[0] == '%' && HexValue(s[1]).Some? && HexValue(s[2]).Some?
  }

  /** `run` holds the bytes of the stretch of ASCII characters being read. The stretch is decoded as
      UTF-8 when it ends; a character outside ASCII stands for itself and ends it. */
  function UnquoteFrom(run: seq<Byte>, s: string): string
    decreases |s|
  {
    if s == "" then Utf8.Decode(run)
    else if Escape(s) then UnquoteFrom(run + [Pair(HexValue(s[1]).value, HexValue(s[2]).value)], s[3..])
    else if Ascii(s[0]) then UnquoteFrom(run + [s[0] as int], s[1..])
    else Utf8.Decode(run) + [s[0]] + UnquoteFrom([], s[1..])
  }

  function Unquote(s: string): string {
    UnquoteFrom([], s)
  }

  // ---- spellings -----------------------------------------------------------------------------

  /** The two digits of an escaped byte may each be in either case. */
  datatype Cases = Cases(high: bool, low: bool)

  /** One character of a path as it may be spelled: as itself, or byte by byte in escapes. */
  datatype Spelling = Plain(c: char) | Escaped(c: char, cases: seq<Cases>)

  predicate Proper(x: Spelling) {
    x.Escaped? ==> |x.cases| == |EncodeChar(x.c)|
  }

  function SpellBytes(bs: seq<Byte>, cases: seq<Cases>): string
    requires |bs| == |cases|
  {
    if bs == [] then ""
    else ['%', HexDigit(cases[0].high, bs[0] / 16), HexDigit(cases[0].low, bs[0] % 16)]
         + SpellBytes(bs[1..], cases[1..])
  }

  function SpellOne(x: Spelling): string
    requires Proper(x)
  {
    match x
    case Plain(c) => [c]
    case Escaped(c, cases) => SpellBytes(EncodeChar(c), cases)
  }

  function Spell(xs: seq<Spelling>): string
    requires forall x | x in xs :: Proper(x)
  {
    if xs == [] then "" else SpellOne(xs[0]) + Spell(xs[1..])
  }

  /** Each character is spelled in full, and no percent sign that stands for itself happens to start
      an escape. */
  predicate WellSpelled(xs: seq<Spelling>) {
    && (forall x | x in xs :: Proper(x))
    && (xs != [] ==> (xs[0] == Plain('%') ==> !Escape(Spell(xs))) && WellSpelled(xs[1..]))
  }

  /** The characters that are spelled. */
  function Meaning(xs: seq<Spelling>): string {
    if xs == [] then "" else [xs[0].c] + Meaning(xs[1..])
  }

  lemma EscapeAdvances(run: seq<Byte>, b: Byte, k: Cases, rest: string)
    ensures UnquoteFrom(run, ['%', HexDigit(k.high, b / 16), HexDigit(k.low, b % 16)] + rest)
         == UnquoteFrom(run + [b], rest)
  {
    HexValueUndoesDigit(k.high, b / 16);
    HexValueUndoesDigit(k.low, b % 16);
    JoinNibbles(b);
    var s := ['%', HexDigit(k.high, b / 16), HexDigit(k.low, b % 16)] + rest;
    assert s[3..] == rest;
  }

  lemma {:induction false} BytesAdvance(run: seq<Byte>, bs: seq<Byte>, cases: seq<Cases>, rest: string)
    requires |bs| == |cases|
    ensures UnquoteFrom(run, SpellBytes(bs, cases) + rest) == UnquoteFrom(run + bs, rest)
    decreases |bs|
  {
    if bs == [] {
      assert "" + rest == rest && run + bs == run;
    } else {
      var first := ['%', HexDigit(cases[0].high, bs[0] / 16), HexDigit(cases[0].low, bs[0] % 16)];
      var tail := SpellBytes(bs[1..], cases[1..]) + rest;
      assert SpellBytes(bs, cases) + rest == first + tail;
      EscapeAdvances(run, bs[0], cases[0], tail);
      BytesAdvance(run + [bs[0]], bs[1..], cases[1..], rest);
      assert run + [bs[0]] + bs[1..] == run + bs;
    }
  }

  lemma PlainAdvances(run: seq<Byte>, c: char, rest: string)
    requires c == '%' ==> !Escape([c] + rest)
    ensures Ascii(c) ==> UnquoteFrom(run, [c] + rest) == UnquoteFrom(run + EncodeChar(c), rest)
    ensures !Ascii(c) ==> UnquoteFrom(run, [c] + rest) == Utf8.Decode(run) + [c] + UnquoteFrom([], rest)
  {
    assert ([c] + rest)[1..] == rest;
  }

  /** After the text `done` has been read into the current run, the rest of the spelling follows. */
  lemma {:induction false} UnquoteSpelling(done: string, xs: seq<Spelling>)
    requires WellSpelled(xs)
    ensures UnquoteFrom(Utf8.Encode(done), Spell(xs)) == done + Meaning(xs)
    decreases |xs|
  {
    if xs == [] {
      EncodeRoundTrip(done);
      assert done + "" == done;
    } else {
      var c, rest := xs[0].c, xs[1..];
      Associate(done, [c], Meaning(rest));
      if xs[0].Plain? && !Ascii(c) {
        EncodeRoundTrip(done);
        PlainAdvances(Utf8.Encode(done), c, Spell(rest));
        UnquoteSpelling("", rest);
        assert "" + Meaning(rest) == Meaning(rest);
      } else {
        FirstSpelling(done, xs[0], Spell(rest));
        UnquoteSpelling(done + [c], rest);
      }
    }
  }

  /** One character that stays in the run. */
  lemma FirstSpelling(done: string, x: Spelling, rest: string)
    requires Proper(x) && (x.Plain? ==> Ascii(x.c))
    requires x == Plain('%') ==> !Escape(SpellOne(x) + rest)
    ensures UnquoteFrom(Utf8.Encode(done), SpellOne(x) + rest) == UnquoteFrom(Utf8.Encode(done + [x.c]), rest)
  {
    EncodeConcat(done, [x.c]);
    assert Utf8.Encode([x.c]) == EncodeChar(x.c);
    if x.Plain? {
      PlainAdvances(Utf8.Encode(done), x.c, rest);
    } else {
      BytesAdvance(Utf8.Encode(done), EncodeChar(x.c), x.cases, rest);
    }
  }

  /** Every spelling of a text, whichever of its characters are escaped and in whichever digit
      case, decodes to the text. Plain percent signs are the one thing a spelling may not have. */
  lemma UnquoteUndoesSpelling(xs: seq<Spelling>)
    requires WellSpelled(xs)
    ensures Unquote(Spell(xs)) == Meaning(xs)
  {
    UnquoteSpelling("", xs);
    assert "" + Meaning(xs) == Meaning(xs);
  }

  /** Text without a percent sign is left as it is. */
  lemma UnquoteWithoutPercent(s: string)
    requires '%' !in s
    ensures Unquote(s) == s
  {
    var xs := seq(|s|, i requires 0 <= i < |s| => Plain(s[i]));
    PlainSpelling(s, xs);
    UnquoteUndoesSpelling(xs);
  }

  lemma {:induction false} PlainSpelling(s: string, xs: seq<Spelling>)
    requires '%' !in s && |xs| == |s| && forall i | 0 <= i < |s| :: xs[i] == Plain(s[i])
    ensures WellSpelled(xs) && Spell(xs) == s && Meaning(xs) == s
    decreases |s|
  {
    if s == "" {
    } else {
      PlainSpelling(s[1..], xs[1..]);
      assert xs == [xs[0]] + xs[1..];
      assert s == [s[0]] + s[1..];
    }
  }

  // ---- leading slashes -----------------------------------------------------------------------

  /** Once a run starts with the byte of a slash, so does the text. */
  lemma {:induction false} RunKeepsSlash(run: seq<Byte>, s: string)
    requires run != [] && run[0] == 0x2F
    ensures UnquoteFrom(run, s) != "" && UnquoteFrom(run, s)[0] == '/'
    decreases |s|
  {
    assert Utf8.Decode(run)[0] == '/';
    if s == "" {
    } else if Escape(s) {
      RunKeepsSlash(run + [Pair(HexValue(s[1]).value, HexValue(s[2]).value)], s[3..]);
    } else if Ascii(s[0]) {
      RunKeepsSlash(run + [s[0] as int], s[1..]);
    } else {
    }
  }

  /** Decoding keeps a leading slash. */
  lemma UnquoteKeepsSlash(s: string)
    requires s != "" && s[0] == '/'
    ensures Unquote(s) != "" && Unquote(s)[0] == '/'
  {
    RunKeepsSlash([0x2F], s[1..]);
    assert [] + [0x2F] == [0x2F];
  }

  // ---- any text at all -----------------------------------------------------------------------

  /** The ASCII characters that a text has, written as themselves or spelled as an escape. */
  function SpelledAscii(s: string): string {
    if s == "" then ""
    else if Escape(s) then
      var b := Pair(HexValue(s[1]).value, HexValue(s[2]).value);
      (if b < 0x80 then [b as char] else "") + SpelledAscii(s[3..])
    else (if Ascii(s[0]) then [s[0]] else "") + SpelledAscii(s[1..])
  }

  lemma AsciiOfOne(c: char)
    ensures AsciiOf([c]) == if Ascii(c) then [c] else ""
  {
    assert [c][1..] == "";
  }

  lemma AsciiBytesOne(b: Byte)
    ensures AsciiBytes([b]) == if b < 0x80 then [b as char] else ""
  {
    assert [b][1..] == [];
  }

  lemma {:induction false} UnquoteFromAscii(run: seq<Byte>, s: string)
    ensures AsciiOf(UnquoteFrom(run, s)) == AsciiBytes(run) + SpelledAscii(s)
    decreases |s|
  {
    DecodeKeepsAscii(run);
    if s == "" {
      assert AsciiBytes(run) + "" == AsciiBytes(run);
    } else if Escape(s) {
      var b := Pair(HexValue(s[1]).value, HexValue(s[2]).value);
      UnquoteFromAscii(run + [b], s[3..]);
      RunGrows(run, b, SpelledAscii(s[3..]));
    } else if Ascii(s[0]) {
      UnquoteFromAscii(run + [s[0] as int], s[1..]);
      RunGrows(run, s[0] as int, SpelledAscii(s[1..]));
    } else {
      UnquoteFromAscii([], s[1..]);
      AsciiConcat(Utf8.Decode(run) + [s[0]], UnquoteFrom([], s[1..]));
      AsciiConcat(Utf8.Decode(run), [s[0]]);
      AsciiOfOne(s[0]);
      assert AsciiBytes(run) + "" == AsciiBytes(run) && "" + SpelledAscii(s[1..]) == SpelledAscii(s[1..]);
    }
  }

  lemma RunGrows(run: seq<Byte>, b: Byte, rest: string)
    ensures AsciiBytes(run + [b]) + rest == AsciiBytes(run) + ((if b < 0x80 then [b as char] else "") + rest)
  {
    AsciiBytesConcat(run, [b]);
    AsciiBytesOne(b);
    Associate(AsciiBytes(run), AsciiBytes([b]), rest);
  }

  /** Decoding any text at all: the ASCII characters of the result are, in order, those the text has
      outside escapes or spells as escapes below 0x80. No other bytes, however malformed, give one. */
  lemma UnquoteAscii(s: string)
    ensures AsciiOf(Unquote(s)) == SpelledAscii(s)
    ensures forall c | Ascii(c) :: c in Unquote(s) <==> c in SpelledAscii(s)
  {
    UnquoteFromAscii([], s);
    assert "" + SpelledAscii(s) == SpelledAscii(s);
    forall c | Ascii(c) ensures c in Unquote(s) <==> c in SpelledAscii(s) {
      AsciiMembers(Unquote(s), c);
    }
  }

  lemma {:induction false} RunAcross(a: seq<Byte>, c: seq<Byte>, s: string)
    ensures UnquoteFrom(a + [0x2F] + c, s) == Utf8.Decode(a) + "/" + UnquoteFrom(c, s)
    decreases |s|
  {
    DecodeAcross(a, 0x2F, c);
    if s == "" {
    } else if Escape(s) {
      var b := Pair(HexValue(s[1]).value, HexValue(s[2]).value);
      assert a + [0x2F] + c + [b] == a + [0x2F] + (c + [b]);
      RunAcross(a, c + [b], s[3..]);
    } else if Ascii(s[0]) {
      assert a + [0x2F] + c + [s[0] as int] == a + [0x2F] + (c + [s[0] as int]);
      RunAcross(a, c + [s[0] as int], s[1..]);
    } else {
      var x, y, z := Utf8.Decode(a) + "/", Utf8.Decode(c) + [s[0]], UnquoteFrom([], s[1..]);
      assert x + Utf8.Decode(c) + [s[0]] + z == x + (y + z);
    }
  }

  lemma {:induction false} UnquoteFromAcross(run: seq<Byte>, x: string, y: string)
    ensures UnquoteFrom(run, x + "/" + y) == UnquoteFrom(run, x) + "/" + UnquoteFrom([], y)
    decreases |x|
  {
    var s := x + "/" + y;
    if x == "" {
      assert s[1..] == y && !Escape(s);
      RunAcross(run, [], y);
      assert run + [0x2F] + [] == run + [0x2F];
    } else {
      EscapeInFront(x, y);
      if Escape(x) {
        assert s[3..] == x[3..] + "/" + y;
        UnquoteFromAcross(run + [Pair(HexValue(x[1]).value, HexValue(x[2]).value)], x[3..], y);
      } else {
        assert s[1..] == x[1..] + "/" + y;
        if Ascii(x[0]) {
          UnquoteFromAcross(run + [x[0] as int], x[1..], y);
        } else {
          UnquoteFromAcross([], x[1..], y);
          var d, z := Utf8.Decode(run) + [x[0]], UnquoteFrom([], x[1..]);
          assert d + (z + "/" + UnquoteFrom([], y)) == d + z + "/" + UnquoteFrom([], y);
        }
      }
    }
  }

  lemma EscapeInFront(x: string, y: string)
    requires x != ""
    ensures (x + "/" + y)[0] == x[0] && (Escape(x + "/" + y) <==> Escape(x))
    ensures Escape(x) ==> (x + "/" + y)[1] == x[1] && (x + "/" + y)[2] == x[2]
  {
    var s := x + "/" + y;
    assert forall i | 0 <= i < |x| :: s[i] == x[i];
    assert s[|x|] == '/';
    assert HexValue('/') == None;
  }

  /** What stands on the two sides of a slash is decoded independently. */
  lemma UnquoteAcrossSlash(x: string, y: string)
    ensures Unquote(x + "/" + y) == Unquote(x) + "/" + Unquote(y)
  {
    UnquoteFromAcross([], x, y);
  }
}

/** UTF-8 as the program uses it: strict encoding, and decoding with malformed input replaced. */
module Utf8 {
  import opened Sequences

  type Byte = b: int | 0 <= b < 256

  const REPLACEMENT := '\U{FFFD}'

  /** The bytes of one character. */
  function EncodeChar(c: char): (bs: seq<Byte>)
    ensures 1 <= |bs| <= 4
    ensures c as int < 0x80 <==> bs == [c as int]
  {
    var n := c as int;
    if n < 0x80 then [n]
    else if n < 0x800 then [0xC0 + n / 64, 0x80 + n % 64]
    else if n < 0x10000 then [0xE0 + n / 4096, 0x80 + n / 64 % 64, 0x80 + n % 64]
    else [0xF0 + n / 262144, 0x80 + n / 4096 % 64, 0x80 + n / 64 % 64, 0x80 + n % 64]
  }

  function Encode(s: string): seq<Byte> {
    if s == "" then [] else EncodeChar(s[0]) + Encode(s[1..])
  }

  predicate Continues(bs: seq<Byte>, i: nat) {
    i < |bs| && 0x80 <= bs[i] < 0xC0
  }

  /** The second byte of a sequence, whose range excludes overlong forms and surrogates. */
  predicate Second(bs: seq<Byte>) {
    && Continues(bs, 1)
    && (bs[0] == 0xE0 ==> bs[1] >= 0xA0)
    && (bs[0] == 0xED ==> bs[1] < 0xA0)
    && (bs[0] == 0xF0 ==> bs[1] >= 0x90)
    && (bs[0] == 0xF4 ==> bs[1] < 0x90)
  }

  function Two(a: int, b: int): int {
    (a - 0xC0) * 64 + (b - 0x80)
  }

  function Three(a: int, b: int, c: int): int {
    (a - 0xE0) * 4096 + (b - 0x80) * 64 + (c - 0x80)
  }

  function Four(a: int, b: int, c: int, d: int): int {
    (a - 0xF0) * 262144 + (b - 0x80) * 4096 + (c - 0x80) * 64 + (d - 0x80)
  }

  /** One decoding step: a character and how many bytes it took. A malformed sequence gives one
      replacement character for its longest well-formed prefix. */
  function DecodeStep(bs: seq<Byte>): (r: (char, nat))
    requires bs != []
    ensures 1 <= r.1 <= |bs|
  {
    if bs[0] < 0x80 then (bs[0] as char, 1)
    else if bs[0] < 0xC2 || bs[0] > 0xF4 || !Second(bs) then (REPLACEMENT, 1)
    else if bs[0] < 0xE0 then (Two(bs[0], bs[1]) as char, 2)
    else if !Continues(bs, 2) then (REPLACEMENT, 2)
    else if bs[0] < 0xF0 then (Three(bs[0], bs[1], bs[2]) as char, 3)
    else if !Continues(bs, 3) then (REPLACEMENT, 3)
    else (Four(bs[0], bs[1], bs[2], bs[3]) as char, 4)
  }

  function Decode(bs: seq<Byte>): string {
    if bs == [] then ""
    else
      var (c, n) := DecodeStep(bs);
      [c] + Decode(bs[n..])
  }

  lemma SplitCode(n: int)
    requires 0x80 <= n < 0x110000
    ensures n < 0x800 ==> Two(0xC0 + n / 64, 0x80 + n % 64) == n
    ensures n < 0x10000 ==> Three(0xE0 + n / 4096, 0x80 + n / 64 % 64, 0x80 + n % 64) == n
    ensures Four(0xF0 + n / 262144, 0x80 + n / 4096 % 64, 0x80 + n / 64 % 64, 0x80 + n % 64) == n
  {
    assert n == n / 64 * 64 + n % 64;
    assert n / 4096 == n / 64 / 64 && n / 262144 == n / 4096 / 64;
  }

  lemma StepUndoesEncode(c: char, rest: seq<Byte>)
    ensures DecodeStep(EncodeChar(c) + rest) == (c, |EncodeChar(c)|)
  {
    var n, bs := c as int, EncodeChar(c) + rest;
    if n >= 0x80 {
      SplitCode(n);
      LeadRanges(c);
      assert forall i | 0 <= i < |EncodeChar(c)| :: bs[i] == EncodeChar(c)[i];
    }
  }

  /** The lead byte gives the length, and the second byte is in the range the lead byte asks for. */
  lemma LeadRanges(c: char)
    requires c as int >= 0x80
    ensures Second(EncodeChar(c))
    ensures forall i | 1 <= i < |EncodeChar(c)| :: Continues(EncodeChar(c), i)
    ensures |EncodeChar(c)| == 2 ==> 0xC2 <= EncodeChar(c)[0] < 0xE0
    ensures |EncodeChar(c)| == 3 ==> 0xE0 <= EncodeChar(c)[0] < 0xF0
    ensures |EncodeChar(c)| == 4 ==> 0xF0 <= EncodeChar(c)[0] <= 0xF4
  {
    var n := c as int;
    if n < 0x800 {
    } else if n < 0x10000 {
      assert n / 4096 == n / 64 / 64;
    } else {
      assert n / 262144 == n / 4096 / 64;
    }
  }

  /** Decoding undoes encoding, also with more bytes behind. */
  lemma DecodeFirst(c: char, rest: seq<Byte>)
    ensures Decode(EncodeChar(c) + rest) == [c] + Decode(rest)
  {
    StepUndoesEncode(c, rest);
    assert (EncodeChar(c) + rest)[|EncodeChar(c)|..] == rest;
  }

  lemma {:induction false} DecodeUndoesEncode(s: string, rest: seq<Byte>)
    ensures Decode(Encode(s) + rest) == s + Decode(rest)
  {
    if s == "" {
      assert Encode(s) + rest == rest;
      assert s + Decode(rest) == Decode(rest);
    } else {
      var tail := Encode(s[1..]) + rest;
      assert Encode(s) + rest == EncodeChar(s[0]) + tail;
      DecodeFirst(s[0], tail);
      DecodeUndoesEncode(s[1..], rest);
      assert [s[0]] + (s[1..] + Decode(rest)) == s + Decode(rest);
    }
  }

  lemma EncodeRoundTrip(s: string)
    ensures Decode(Encode(s)) == s
  {
    DecodeUndoesEncode(s, []);
    assert Encode(s) + [] == Encode(s);
  }

  lemma {:induction false} EncodeConcat(a: string, b: string)
    ensures Encode(a + b) == Encode(a) + Encode(b)
  {
    if a == "" {
      assert a + b == b;
    } else {
      assert (a + b)[1..] == a[1..] + b;
      EncodeConcat(a[1..], b);
    }
  }

  lemma {:induction false} EncodeLength(s: string)
    ensures |Encode(s)| >= |s|
  {
    if s == "" {
    } else {
      EncodeLength(s[1..]);
    }
  }

  // ---- decoding, whatever the bytes are ------------------------------------------------------

  /** The bytes are the beginning of the encoding of a character. */
  ghost predicate Begins(bs: seq<Byte>) {
    exists c :: bs <= EncodeChar(c)
  }

  lemma TwoEncodes(a: int, b: int)
    requires 0xC2 <= a < 0xE0 && 0x80 <= b < 0xC0
    ensures 0x80 <= Two(a, b) < 0x800 && EncodeChar(Two(a, b) as char) == [a, b]
  {
  }

  lemma ThreeEncodes(a: int, b: int, c: int)
    requires 0xE0 <= a < 0xF0 && 0x80 <= c < 0xC0 && 0x80 <= b < 0xC0
    requires (a == 0xE0 ==> b >= 0xA0) && (a == 0xED ==> b < 0xA0)
    ensures var n := Three(a, b, c);
            0x800 <= n < 0x10000 && !(0xD800 <= n < 0xE000) && EncodeChar(n as char) == [a, b, c]
  {
    var n := Three(a, b, c);
    assert n / 64 == (a - 0xE0) * 64 + (b - 0x80) && n % 64 == c - 0x80;
    assert n / 4096 == n / 64 / 64;
  }

  lemma FourEncodes(a: int, b: int, c: int, d: int)
    requires 0xF0 <= a <= 0xF4 && 0x80 <= b < 0xC0 && 0x80 <= c < 0xC0 && 0x80 <= d < 0xC0
    requires (a == 0xF0 ==> b >= 0x90) && (a == 0xF4 ==> b < 0x90)
    ensures var n := Four(a, b, c, d); 0x10000 <= n < 0x110000 && EncodeChar(n as char) == [a, b, c, d]
  {
    var n := Four(a, b, c, d);
    assert n / 64 == (a - 0xF0) * 4096 + (b - 0x80) * 64 + (c - 0x80) && n % 64 == d - 0x80;
    assert n / 4096 == n / 64 / 64 == (a - 0xF0) * 64 + (b - 0x80);
    assert n / 262144 == n / 4096 / 64;
  }

  /** The bytes of a step that is not a replacement are the encoding of the character. */
  lemma GoodStep(bs: seq<Byte>)
    requires bs != []
    ensures var (c, n) := DecodeStep(bs);
            EncodeChar(c) == bs[..n] || (c == REPLACEMENT && (n == 1 || Begins(bs[..n])))
  {
    var (c, n) := DecodeStep(bs);
    if bs[0] < 0x80 {
    } else if bs[0] < 0xC2 || bs[0] > 0xF4 || !Second(bs) {
    } else if bs[0] < 0xE0 {
      TwoEncodes(bs[0], bs[1]);
    } else if bs[0] < 0xF0 {
      ThreeEncodes(bs[0], bs[1], if Continues(bs, 2) then bs[2] else 0x80);
      if !Continues(bs, 2) {
        assert bs[..2] <= EncodeChar(Three(bs[0], bs[1], 0x80) as char);
      }
    } else {
      var x := if Continues(bs, 2) then bs[2] else 0x80;
      FourEncodes(bs[0], bs[1], x, if Continues(bs, 2) && Continues(bs, 3) then bs[3] else 0x80);
      if !Continues(bs, 2) || !Continues(bs, 3) {
        assert bs[..n] <= EncodeChar(Four(bs[0], bs[1], x, 0x80) as char);
      }
    }
  }

  /** What is not taken cannot belong to the character that was begun. */
  lemma NoLonger(bs: seq<Byte>)
    requires bs != []
    ensures var n := DecodeStep(bs).1;
            n < |bs| && bs[0] >= 0x80 ==> !Begins(bs[..n + 1])
  {
    var n := DecodeStep(bs).1;
    if n < |bs| && bs[0] >= 0x80 {
      forall c ensures !(bs[..n + 1] <= EncodeChar(c)) {
        if bs[..n + 1] <= EncodeChar(c) {
          LeadOf(c, bs[..n + 1]);
        }
      }
    }
  }

  lemma LeadOf(c: char, bs: seq<Byte>)
    requires |bs| >= 2 && bs <= EncodeChar(c)
    ensures 0xC2 <= bs[0] <= 0xF4 && Second(bs) && forall i | 1 <= i < |bs| :: Continues(bs, i)
    ensures bs[0] < 0xE0 ==> |bs| == 2
    ensures bs[0] < 0xF0 ==> |bs| <= 3
    ensures |bs| <= 4
  {
    LeadRanges(c);
    assert forall i | 0 <= i < |bs| :: bs[i] == EncodeChar(c)[i];
    assert forall i | 1 <= i < |bs| :: Continues(EncodeChar(c), i);
  }

  /** One step on any bytes: the character whose encoding stands in front, if there is one; otherwise
      one U+FFFD for the longest beginning of a character's encoding that stands in front, or for one
      byte if there is none. */
  lemma DecodeStepExactly(bs: seq<Byte>)
    requires bs != []
    ensures var (c, n) := DecodeStep(bs);
            && (forall x :: EncodeChar(x) <= bs ==> c == x && n == |EncodeChar(x)|)
            && ((forall x :: !(EncodeChar(x) <= bs)) ==>
                  && c == '\U{FFFD}'
                  && (n == 1 || Begins(bs[..n]))
                  && (n < |bs| ==> !Begins(bs[..n + 1])))
  {
    var (c, n) := DecodeStep(bs);
    forall x | EncodeChar(x) <= bs ensures c == x && n == |EncodeChar(x)| {
      StepUndoesEncode(x, bs[|EncodeChar(x)|..]);
      assert EncodeChar(x) + bs[|EncodeChar(x)|..] == bs;
    }
    GoodStep(bs);
    NoLonger(bs);
    assert bs[..n] <= bs;
    if bs[0] < 0x80 { assert EncodeChar(bs[0] as char) <= bs; }
  }

  /** The bytes that stand for ASCII characters, in order. */
  function AsciiBytes(bs: seq<Byte>): string {
    if bs == [] then ""
    else (if bs[0] < 0x80 then [bs[0] as char] else "") + AsciiBytes(bs[1..])
  }

  /** The ASCII characters of a text, in order. */
  function AsciiOf(s: string): string {
    if s == "" then "" else (if s[0] as int < 0x80 then [s[0]] else "") + AsciiOf(s[1..])
  }

  lemma {:induction false} AsciiConcat(a: string, b: string)
    ensures AsciiOf(a + b) == AsciiOf(a) + AsciiOf(b)
  {
    if a == "" {
      assert a + b == b;
    } else {
      ConsConcat(a, b);
      AsciiConcat(a[1..], b);
      Associate(if a[0] as int < 0x80 then [a[0]] else "", AsciiOf(a[1..]), AsciiOf(b));
    }
  }

  lemma {:induction false} AsciiBytesConcat(a: seq<Byte>, b: seq<Byte>)
    ensures AsciiBytes(a + b) == AsciiBytes(a) + AsciiBytes(b)
  {
    if a == [] {
      assert a + b == b;
    } else {
      ConsConcat(a, b);
      AsciiBytesConcat(a[1..], b);
      Associate(if a[0] < 0x80 then [a[0] as char] else "", AsciiBytes(a[1..]), AsciiBytes(b));
    }
  }

  lemma {:induction false} NoAsciiBytes(bs: seq<Byte>)
    requires forall i | 0 <= i < |bs| :: bs[i] >= 0x80
    ensures AsciiBytes(bs) == ""
  {
    if bs == [] {
    } else {
      NoAsciiBytes(bs[1..]);
    }
  }

  /** A step takes one ASCII byte and gives its character, or takes other bytes and gives another one. */
  lemma StepKeepsAscii(bs: seq<Byte>)
    requires bs != []
    ensures var (c, n) := DecodeStep(bs);
            AsciiBytes(bs[..n]) == AsciiOf([c])
  {
    var (c, n) := DecodeStep(bs);
    if bs[0] < 0x80 {
      assert bs[..1] == [bs[0]] && [bs[0]][1..] == [];
    } else {
      GoodStep(bs);
      assert c as int >= 0x80;
      assert forall i | 0 <= i < n :: bs[..n][i] >= 0x80;
      NoAsciiBytes(bs[..n]);
    }
  }

  /** Whatever the bytes are, the ASCII characters decoded are the ASCII bytes, in order. */
  lemma {:induction false} DecodeKeepsAscii(bs: seq<Byte>)
    ensures AsciiOf(Decode(bs)) == AsciiBytes(bs)
  {
    if bs == [] {
    } else {
      var (c, n) := DecodeStep(bs);
      StepKeepsAscii(bs);
      DecodeKeepsAscii(bs[n..]);
      AsciiConcat([c], Decode(bs[n..]));
      AsciiBytesConcat(bs[..n], bs[n..]);
      assert bs == bs[..n] + bs[n..];
    }
  }

  lemma {:induction false} AsciiMembers(s: string, c: char)
    requires c as int < 0x80
    ensures c in AsciiOf(s) <==> c in s
  {
    if s == "" {
    } else {
      AsciiMembers(s[1..], c);
      assert c in s <==> c == s[0] || c in s[1..];
    }
  }

  /** An ASCII byte belongs to no longer sequence: what stands before it is decoded without it. */
  lemma StepBefore(a: seq<Byte>, b: Byte, c: seq<Byte>)
    requires a != [] && b < 0x80
    ensures DecodeStep(a + [b] + c) == DecodeStep(a)
  {
    var bs := a + [b] + c;
    assert forall i | 0 <= i < |a| :: bs[i] == a[i];
    assert bs[|a|] == b;
    assert Continues(bs, 1) <==> Continues(a, 1);
    assert Continues(a, 1) ==> (Continues(bs, 2) <==> Continues(a, 2));
    assert Continues(a, 1) && Continues(a, 2) ==> (Continues(bs, 3) <==> Continues(a, 3));
  }

  lemma {:induction false} DecodeAcross(a: seq<Byte>, b: Byte, c: seq<Byte>)
    requires b < 0x80
    ensures Decode(a + [b] + c) == Decode(a) + [b as char] + Decode(c)
    decreases |a|
  {
    var bs := a + [b] + c;
    if a == [] {
      assert bs == [b] + c && bs[1..] == c;
    } else {
      var (x, n) := DecodeStep(a);
      StepBefore(a, b, c);
      assert bs[n..] == a[n..] + [b] + c;
      DecodeAcross(a[n..], b, c);
      assert [x] + (Decode(a[n..]) + [b as char] + Decode(c)) == [x] + Decode(a[n..]) + [b as char] + Decode(c);
    }
  }
}

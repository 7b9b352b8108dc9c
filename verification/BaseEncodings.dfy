/** Base64 with both alphabets (sections 4 and 5 of RFC 4648) and base16 (section 8). */
module BaseEncodings {
  import opened Sequences
  import opened Utf8

  datatype Option<+T> = None | Some(value: T)

  // ---- base64 --------------------------------------------------------------------------------

  type Sextet = n: int | 0 <= n < 64

  /** The two alphabets differ in the last two characters only. */
  function Digit(url: bool, n: Sextet): char {
    if n < 26 then 'A' + n as char
    else if n < 52 then 'a' + (n - 26) as char
    else if n < 62 then '0' + (n - 52) as char
    else if n == 62 then (if url then '-' else '+')
    else if url then '_' else '/'
  }

  /** The digits are those of tables 1 and 2 of the RFC: three stretches of consecutive characters with
      these ends, and two more digits. */
  lemma DigitTable(url: bool, n: Sextet)
    ensures Digit(url, 0) == 'A' && Digit(url, 25) == 'Z' && Digit(url, 26) == 'a' && Digit(url, 51) == 'z'
    ensures Digit(url, 52) == '0' && Digit(url, 61) == '9'
    ensures [Digit(false, 62), Digit(false, 63), Digit(true, 62), Digit(true, 63)] == "+/-_"
    ensures n !in {25, 51, 61, 62, 63} ==> Digit(url, n + 1) as int == Digit(url, n) as int + 1
  {
  }

  function Value(url: bool, c: char): Option<Sextet> {
    if 'A' <= c <= 'Z' then Some(c as int - 'A' as int)
    else if 'a' <= c <= 'z' then Some(c as int - 'a' as int + 26)
    else if '0' <= c <= '9' then Some(c as int - '0' as int + 52)
    else if c == (if url then '-' else '+') then Some(62)
    else if c == (if url then '_' else '/') then Some(63)
    else None
  }

  /** Encodes three bytes at a time as four digits, the last group padded with `=`. */
  function Encode64(url: bool, bs: seq<Byte>): string {
    if bs == [] then ""
    else if |bs| == 1 then
      [Digit(url, bs[0] / 4), Digit(url, bs[0] % 4 * 16), '=', '=']
    else if |bs| == 2 then
      [Digit(url, bs[0] / 4), Digit(url, bs[0] % 4 * 16 + bs[1] / 16), Digit(url, bs[1] % 16 * 4), '=']
    else
      [Digit(url, bs[0] / 4), Digit(url, bs[0] % 4 * 16 + bs[1] / 16),
       Digit(url, bs[1] % 16 * 4 + bs[2] / 64), Digit(url, bs[2] % 64)] + Encode64(url, bs[3..])
  }

  /** `s.rstrip("=")` */
  function StripPadding(s: string): string {
    if s != "" && s[|s| - 1] == '=' then StripPadding(s[..|s| - 1]) else s
  }

  function Values(url: bool, s: string): Option<seq<Sextet>> {
    if s == "" then Some([])
    else match (Value(url, s[0]), Values(url, s[1..]))
      case (Some(v), Some(vs)) => Some([v] + vs)
      case _ => None
  }

  function First(v: int, w: int): Byte
    requires 0 <= v < 64 && 0 <= w < 64
  {
    v * 4 + w / 16
  }

  function Middle(v: int, w: int): Byte
    requires 0 <= v < 64 && 0 <= w < 64
  {
    v % 16 * 16 + w / 4
  }

  function Last(v: int, w: int): Byte
    requires 0 <= v < 64 && 0 <= w < 64
  {
    v % 4 * 64 + w
  }

  /** The bytes of a run of digits. Left-over bits must be zero, and one digit cannot stand alone. */
  function Group(vs: seq<Sextet>): Option<seq<Byte>> {
    if vs == [] then Some([])
    else if |vs| == 1 then None
    else if |vs| == 2 then
      if vs[1] % 16 != 0 then None else Some([First(vs[0], vs[1])])
    else if |vs| == 3 then
      if vs[2] % 4 != 0 then None else Some([First(vs[0], vs[1]), Middle(vs[1], vs[2])])
    else
      match Group(vs[4..])
      case None => None
      case Some(rest) => Some([First(vs[0], vs[1]), Middle(vs[1], vs[2]), Last(vs[2], vs[3])] + rest)
  }

  /** A decoder of padded and unpadded base64. */
  function Decode64(url: bool, s: string): Option<seq<Byte>> {
    match Values(url, StripPadding(s))
    case None => None
    case Some(vs) => Group(vs)
  }

  /** The digits of the encoding, without the padding. */
  function Sextets(bs: seq<Byte>): (r: seq<Sextet>) {
    if bs == [] then []
    else if |bs| == 1 then [bs[0] / 4, bs[0] % 4 * 16]
    else if |bs| == 2 then [bs[0] / 4, bs[0] % 4 * 16 + bs[1] / 16, bs[1] % 16 * 4]
    else
      [bs[0] / 4, bs[0] % 4 * 16 + bs[1] / 16, bs[1] % 16 * 4 + bs[2] / 64, bs[2] % 64] + Sextets(bs[3..])
  }

  function Digits(url: bool, vs: seq<Sextet>): string {
    seq(|vs|, i requires 0 <= i < |vs| => Digit(url, vs[i]))
  }

  function Padding(n: nat): string {
    if n % 3 == 0 then "" else if n % 3 == 1 then "==" else "="
  }

  lemma ValueUndoesDigit(url: bool, n: Sextet)
    ensures Value(url, Digit(url, n)) == Some(n)
    ensures Digit(url, n) != '='
  {
  }

  lemma DigitsConcat(url: bool, a: seq<Sextet>, b: seq<Sextet>)
    ensures Digits(url, a + b) == Digits(url, a) + Digits(url, b)
  {
  }

  /** The padded encoding is the digits followed by the padding its length calls for. */
  lemma {:induction false} EncodedIsDigits(url: bool, bs: seq<Byte>)
    ensures Encode64(url, bs) == Digits(url, Sextets(bs)) + Padding(|bs|)
  {
    if bs == [] {
    } else if |bs| < 3 {
      LastGroup(url, bs);
    } else {
      EncodedIsDigits(url, bs[3..]);
      FirstGroup(url, bs);
      SamePadding(|bs|);
      Associate(Digits(url, Sextets(bs[..3])), Digits(url, Sextets(bs[3..])), Padding(|bs|));
    }
  }

  lemma SamePadding(n: nat)
    requires n >= 3
    ensures Padding(n) == Padding(n - 3)
  {
  }

  lemma LastGroup(url: bool, bs: seq<Byte>)
    requires 1 <= |bs| < 3
    ensures Encode64(url, bs) == Digits(url, Sextets(bs)) + Padding(|bs|)
  {
    var d := Digits(url, Sextets(bs));
    if |bs| == 1 {
      assert d == [Digit(url, bs[0] / 4), Digit(url, bs[0] % 4 * 16)];
    } else {
      assert d == [Digit(url, bs[0] / 4), Digit(url, bs[0] % 4 * 16 + bs[1] / 16), Digit(url, bs[1] % 16 * 4)];
    }
  }

  lemma FirstGroup(url: bool, bs: seq<Byte>)
    requires |bs| >= 3
    ensures Encode64(url, bs) == Digits(url, Sextets(bs[..3])) + Encode64(url, bs[3..])
    ensures Digits(url, Sextets(bs)) == Digits(url, Sextets(bs[..3])) + Digits(url, Sextets(bs[3..]))
  {
    var four := Sextets(bs[..3]);
    var group := [Digit(url, four[0]), Digit(url, four[1]), Digit(url, four[2]), Digit(url, four[3])];
    assert Sextets(bs[..3][3..]) == [];
    assert four == [bs[0] / 4, bs[0] % 4 * 16 + bs[1] / 16, bs[1] % 16 * 4 + bs[2] / 64, bs[2] % 64];
    assert Digits(url, four) == group;
    DigitsConcat(url, four, Sextets(bs[3..]));
    assert Sextets(bs) == four + Sextets(bs[3..]);
  }

  lemma StripOne(s: string)
    ensures StripPadding(s + "=") == StripPadding(s)
  {
    assert (s + "=")[..|s|] == s;
  }

  lemma PaddingStrips(s: string, n: nat)
    requires s == "" || s[|s| - 1] != '='
    ensures StripPadding(s + Padding(n)) == s
  {
    assert StripPadding(s) == s;
    StripOne(s);
    StripOne(s + "=");
    assert s + "=" + "=" == s + "==";
    assert s + "" == s;
  }

  lemma StrippedIsDigits(url: bool, bs: seq<Byte>)
    ensures StripPadding(Encode64(url, bs)) == Digits(url, Sextets(bs))
    ensures StripPadding(Digits(url, Sextets(bs))) == Digits(url, Sextets(bs))
  {
    var d := Digits(url, Sextets(bs));
    EncodedIsDigits(url, bs);
    if d != "" { ValueUndoesDigit(url, Sextets(bs)[|d| - 1]); }
    PaddingStrips(d, |bs|);
  }

  lemma {:induction false} ValuesUndoDigits(url: bool, vs: seq<Sextet>)
    ensures Values(url, Digits(url, vs)) == Some(vs)
  {
    if vs == [] {
    } else {
      var s := Digits(url, vs);
      ValueUndoesDigit(url, vs[0]);
      assert s[1..] == Digits(url, vs[1..]);
      ValuesUndoDigits(url, vs[1..]);
      assert Values(url, s) == Some([vs[0]] + vs[1..]);
      assert [vs[0]] + vs[1..] == vs;
    }
  }

  /** Three bytes cut into four digits and put together again. */
  lemma CutAndJoin(a: int, b: int, c: int)
    requires 0 <= a < 256 && 0 <= b < 256 && 0 <= c < 256
    ensures First(a / 4, a % 4 * 16 + b / 16) == a
    ensures Middle(a % 4 * 16 + b / 16, b % 16 * 4 + c / 64) == b
    ensures Last(b % 16 * 4 + c / 64, c % 64) == c
  {
  }

  /** The bits left over in a last digit are zero. */
  lemma NothingLeftOver(a: int)
    requires 0 <= a < 256
    ensures a % 4 * 16 % 16 == 0 && a % 16 * 4 % 4 == 0
    ensures First(a / 4, a % 4 * 16) == a
  {
  }

  lemma GroupOfTwo(v: Sextet, w: Sextet)
    requires w % 16 == 0
    ensures Group([v, w]) == Some([First(v, w)])
  {
  }

  lemma GroupOfThree(v: Sextet, w: Sextet, x: Sextet)
    requires x % 4 == 0
    ensures Group([v, w, x]) == Some([First(v, w), Middle(w, x)])
  {
  }

  lemma GroupOfFour(v: Sextet, w: Sextet, x: Sextet, y: Sextet, rest: seq<Sextet>, bs: seq<Byte>)
    requires Group(rest) == Some(bs)
    ensures Group([v, w, x, y] + rest) == Some([First(v, w), Middle(w, x), Last(x, y)] + bs)
  {
    assert ([v, w, x, y] + rest)[4..] == rest;
  }

  lemma GroupFirst(a: Byte, b: Byte, c: Byte, rest: seq<Byte>)
    requires Group(Sextets(rest)) == Some(rest)
    ensures Group(Sextets([a, b, c] + rest)) == Some([a, b, c] + rest)
  {
    CutAndJoin(a, b, c);
    var bs := [a, b, c] + rest;
    assert bs[3..] == rest;
    assert Sextets(bs) == [a / 4, a % 4 * 16 + b / 16, b % 16 * 4 + c / 64, c % 64] + Sextets(rest);
    GroupOfFour(a / 4, a % 4 * 16 + b / 16, b % 16 * 4 + c / 64, c % 64, Sextets(rest), rest);
  }

  lemma GroupOne(a: Byte)
    ensures Group(Sextets([a])) == Some([a])
  {
    NothingLeftOver(a);
    assert Sextets([a]) == [a / 4, a % 4 * 16];
    GroupOfTwo(a / 4, a % 4 * 16);
  }

  lemma GroupTwo(a: Byte, b: Byte)
    ensures Group(Sextets([a, b])) == Some([a, b])
  {
    CutAndJoin(a, b, 0);
    NothingLeftOver(b);
    assert Sextets([a, b]) == [a / 4, a % 4 * 16 + b / 16, b % 16 * 4];
    GroupOfThree(a / 4, a % 4 * 16 + b / 16, b % 16 * 4);
  }

  lemma {:induction false} GroupUndoesSextets(bs: seq<Byte>)
    ensures Group(Sextets(bs)) == Some(bs)
  {
    if bs == [] {
    } else if |bs| == 1 {
      GroupOne(bs[0]);
      assert [bs[0]] == bs;
    } else if |bs| == 2 {
      GroupTwo(bs[0], bs[1]);
      assert [bs[0], bs[1]] == bs;
    } else {
      GroupUndoesSextets(bs[3..]);
      GroupFirst(bs[0], bs[1], bs[2], bs[3..]);
      assert [bs[0], bs[1], bs[2]] + bs[3..] == bs;
    }
  }

  /** Padded or stripped, with either alphabet, the encoding decodes to the bytes. */
  lemma Decode64UndoesEncode64(url: bool, bs: seq<Byte>)
    ensures Decode64(url, Encode64(url, bs)) == Some(bs)
    ensures Decode64(url, StripPadding(Encode64(url, bs))) == Some(bs)
  {
    StrippedIsDigits(url, bs);
    ValuesUndoDigits(url, Sextets(bs));
    GroupUndoesSextets(bs);
  }

  lemma DigitUndoesValue(url: bool, c: char)
    requires Value(url, c).Some?
    ensures Digit(url, Value(url, c).value) == c
  {
  }

  lemma {:induction false} DigitsUndoValues(url: bool, s: string)
    requires Values(url, s).Some?
    ensures Digits(url, Values(url, s).value) == s
  {
    if s == "" {
    } else {
      DigitUndoesValue(url, s[0]);
      DigitsUndoValues(url, s[1..]);
      var vs := Values(url, s).value;
      assert vs[1..] == Values(url, s[1..]).value;
      assert Digits(url, vs) == [Digit(url, vs[0])] + Digits(url, vs[1..]);
    }
  }

  /** Four digits joined into three bytes and cut again. */
  lemma JoinAndCut(v: int, w: int, x: int, y: int)
    requires 0 <= v < 64 && 0 <= w < 64 && 0 <= x < 64 && 0 <= y < 64
    ensures First(v, w) / 4 == v
    ensures First(v, w) % 4 * 16 + Middle(w, x) / 16 == w
    ensures Middle(w, x) % 16 * 4 + Last(x, y) / 64 == x
    ensures Last(x, y) % 64 == y
    ensures w % 16 == 0 ==> First(v, w) % 4 * 16 == w
    ensures x % 4 == 0 ==> Middle(w, x) % 16 * 4 == x
  {
  }

  lemma {:induction false} SextetsUndoGroup(vs: seq<Sextet>)
    requires Group(vs).Some?
    ensures Sextets(Group(vs).value) == vs
  {
    var bs := Group(vs).value;
    if vs == [] {
    } else if |vs| == 2 {
      JoinAndCut(vs[0], vs[1], 0, 0);
      assert Sextets(bs) == [vs[0], vs[1]];
    } else if |vs| == 3 {
      JoinAndCut(vs[0], vs[1], vs[2], 0);
      assert Sextets(bs) == [vs[0], vs[1], vs[2]];
    } else {
      JoinAndCut(vs[0], vs[1], vs[2], vs[3]);
      SextetsUndoGroup(vs[4..]);
      assert bs[3..] == Group(vs[4..]).value;
      assert Sextets(bs) == [vs[0], vs[1], vs[2], vs[3]] + vs[4..];
    }
  }

  /** Whatever decodes is, up to padding, the encoding of what it decodes to. */
  lemma Encode64UndoesDecode64(url: bool, s: string)
    requires Decode64(url, s).Some?
    ensures StripPadding(Encode64(url, Decode64(url, s).value)) == StripPadding(s)
  {
    var t := StripPadding(s);
    DigitsUndoValues(url, t);
    SextetsUndoGroup(Values(url, t).value);
    StrippedIsDigits(url, Decode64(url, s).value);
  }

  function Equals(k: nat): string {
    seq(k, i => '=')
  }

  /** Filled up to whole groups of four, with at most two `=`. */
  predicate Padded(s: string) {
    |s| % 4 == 0 && |s| <= |StripPadding(s)| + 2
  }

  predicate Unpadded(s: string) {
    StripPadding(s) == s
  }

  lemma {:induction false} StripSplits(s: string)
    ensures |StripPadding(s)| <= |s| && s == StripPadding(s) + Equals(|s| - |StripPadding(s)|)
  {
    if s == "" || s[|s| - 1] != '=' {
      assert Equals(0) == "";
    } else {
      var t := s[..|s| - 1];
      StripSplits(t);
      assert Equals(|t| - |StripPadding(t)|) + "=" == Equals(|s| - |StripPadding(s)|);
      assert s == t + "=";
    }
  }

  lemma DigitCount(k: nat)
    ensures (4 * (3 * k) + 2) / 3 == 4 * k
    ensures (4 * (3 * k + 1) + 2) / 3 == 4 * k + 2
    ensures (4 * (3 * k + 2) + 2) / 3 == 4 * k + 3
  {
  }

  /** The digits of a number of bytes and their padding make whole groups. */
  lemma PaddingFits(n: nat)
    ensures ((4 * n + 2) / 3 + |Padding(n)|) % 4 == 0
  {
    DigitCount(n / 3);
    assert n == 3 * (n / 3) + n % 3;
  }

  lemma PaddingIsEquals(n: nat)
    ensures Padding(n) == Equals(|Padding(n)|) && |Padding(n)| <= 2
  {
  }

  /** There is one padded and one unpadded text that decodes to given bytes, and those are what the
      encoder gives. */
  lemma Base64Exactly(url: bool, bs: seq<Byte>, s: string)
    ensures s == Encode64(url, bs) <==> Decode64(url, s) == Some(bs) && Padded(s)
    ensures s == StripPadding(Encode64(url, bs)) <==> Decode64(url, s) == Some(bs) && Unpadded(s)
  {
    Decode64UndoesEncode64(url, bs);
    EncodedIsDigits(url, bs);
    StrippedIsDigits(url, bs);
    SextetsLength(bs);
    var d := Digits(url, Sextets(bs));
    FilledUp(d, |bs|, Encode64(url, bs));
    if Decode64(url, s) == Some(bs) {
      Encode64UndoesDecode64(url, s);
      FilledUp(d, |bs|, s);
    }
  }

  lemma FilledUp(d: string, n: nat, s: string)
    requires |d| == (4 * n + 2) / 3 && StripPadding(s) == d
    ensures Padded(s) <==> s == d + Padding(n)
  {
    PaddingFits(n);
    PaddingIsEquals(n);
    StripSplits(s);
    var k := |s| - |d|;
    if Padded(s) {
      WholeGroups(|d|, k, |Padding(n)|);
    }
  }

  lemma WholeGroups(d: nat, k: nat, l: nat)
    requires (d + k) % 4 == 0 && (d + l) % 4 == 0 && k <= 2 && l <= 2
    ensures k == l
  {
  }

  /** Every base64 form is strictly longer than the bytes and has only alphabet characters or `=`. */
  lemma Encode64Shape(url: bool, bs: seq<Byte>)
    ensures bs != [] ==> |StripPadding(Encode64(url, bs))| > |bs|
    ensures |Encode64(url, bs)| >= |StripPadding(Encode64(url, bs))|
    ensures forall c | c in Encode64(url, bs) :: c == '=' || Value(url, c).Some?
    ensures forall c | c in StripPadding(Encode64(url, bs)) :: Value(url, c).Some?
  {
    EncodedIsDigits(url, bs);
    StrippedIsDigits(url, bs);
    SextetsLength(bs);
    forall c | c in Digits(url, Sextets(bs)) ensures Value(url, c).Some? {
      var i :| 0 <= i < |Sextets(bs)| && Digits(url, Sextets(bs))[i] == c;
      ValueUndoesDigit(url, Sextets(bs)[i]);
    }
  }

  lemma {:induction false} SextetsLength(bs: seq<Byte>)
    ensures |Sextets(bs)| == (4 * |bs| + 2) / 3
  {
    if |bs| < 3 {
    } else {
      SextetsLength(bs[3..]);
    }
  }

  // ---- base16 --------------------------------------------------------------------------------

  type Nibble = n: int | 0 <= n < 16

  function HexDigit(upper: bool, n: Nibble): char {
    if n < 10 then '0' + n as char
    else (if upper then 'A' else 'a') + (n - 10) as char
  }

  /** The digits are those of the RFC's table 5, or their lower-case forms. */
  lemma HexDigitIsTable(upper: bool, n: Nibble)
    ensures HexDigit(upper, n) == (if upper then "0123456789ABCDEF" else "0123456789abcdef")[n]
  {
  }

  /** A hexadecimal digit in either case. */
  function HexValue(c: char): Option<Nibble> {
    if '0' <= c <= '9' then Some(c as int - '0' as int)
    else if 'a' <= c <= 'f' then Some(c as int - 'a' as int + 10)
    else if 'A' <= c <= 'F' then Some(c as int - 'A' as int + 10)
    else None
  }

  function EncodeHex(upper: bool, bs: seq<Byte>): string {
    if bs == [] then ""
    else [HexDigit(upper, bs[0] / 16), HexDigit(upper, bs[0] % 16)] + EncodeHex(upper, bs[1..])
  }

  function Pair(h: int, l: int): Byte
    requires 0 <= h < 16 && 0 <= l < 16
  {
    h * 16 + l
  }

  function DecodeHex(s: string): Option<seq<Byte>> {
    if s == "" then Some([])
    else if |s| == 1 then None
    else match (HexValue(s[0]), HexValue(s[1]), DecodeHex(s[2..]))
      case (Some(h), Some(l), Some(rest)) => Some([Pair(h, l)] + rest)
      case _ => None
  }

  lemma HexValueUndoesDigit(upper: bool, n: Nibble)
    ensures HexValue(HexDigit(upper, n)) == Some(n)
  {
  }

  lemma JoinNibbles(b: int)
    requires 0 <= b < 256
    ensures Pair(b / 16, b % 16) == b
  {
  }

  lemma HexFirst(upper: bool, b: Byte, rest: string, bs: seq<Byte>)
    requires DecodeHex(rest) == Some(bs)
    ensures DecodeHex([HexDigit(upper, b / 16), HexDigit(upper, b % 16)] + rest) == Some([b] + bs)
  {
    HexValueUndoesDigit(upper, b / 16);
    HexValueUndoesDigit(upper, b % 16);
    JoinNibbles(b);
    assert ([HexDigit(upper, b / 16), HexDigit(upper, b % 16)] + rest)[2..] == rest;
  }

  lemma {:induction false} DecodeHexUndoesEncodeHex(upper: bool, bs: seq<Byte>)
    ensures DecodeHex(EncodeHex(upper, bs)) == Some(bs)
  {
    if bs == [] {
    } else {
      DecodeHexUndoesEncodeHex(upper, bs[1..]);
      HexFirst(upper, bs[0], EncodeHex(upper, bs[1..]), bs[1..]);
      assert [bs[0]] + bs[1..] == bs;
    }
  }

  /** Without letters of the other case. */
  predicate HexCase(upper: bool, s: string) {
    forall c | c in s :: !(if upper then 'a' <= c <= 'f' else 'A' <= c <= 'F')
  }

  lemma HexDigitUndoesValue(upper: bool, c: char)
    requires HexValue(c).Some? && HexCase(upper, [c])
    ensures HexDigit(upper, HexValue(c).value) == c
  {
    assert c in [c];
  }

  lemma CutPair(h: int, l: int)
    requires 0 <= h < 16 && 0 <= l < 16
    ensures Pair(h, l) / 16 == h && Pair(h, l) % 16 == l
  {
  }

  lemma {:induction false} HexHasCase(upper: bool, bs: seq<Byte>)
    ensures HexCase(upper, EncodeHex(upper, bs))
  {
    if bs == [] {
    } else {
      HexHasCase(upper, bs[1..]);
    }
  }

  lemma {:induction false} EncodeHexUndoesDecodeHex(upper: bool, s: string)
    requires DecodeHex(s).Some? && HexCase(upper, s)
    ensures EncodeHex(upper, DecodeHex(s).value) == s
  {
    if s == "" {
    } else {
      assert s[0] in s && s[1] in s && forall c | c in s[2..] :: c in s;
      EncodeHexUndoesDecodeHex(upper, s[2..]);
      HexDigitUndoesValue(upper, s[0]);
      HexDigitUndoesValue(upper, s[1]);
      CutPair(HexValue(s[0]).value, HexValue(s[1]).value);
      assert DecodeHex(s).value[1..] == DecodeHex(s[2..]).value;
      assert s == [s[0], s[1]] + s[2..];
    }
  }

  /** There is one text in each case that decodes to given bytes, and that is what the encoder gives. */
  lemma HexExactly(upper: bool, bs: seq<Byte>, s: string)
    ensures s == EncodeHex(upper, bs) <==> DecodeHex(s) == Some(bs) && HexCase(upper, s)
  {
    DecodeHexUndoesEncodeHex(upper, bs);
    HexHasCase(upper, bs);
    if DecodeHex(s) == Some(bs) && HexCase(upper, s) { EncodeHexUndoesDecodeHex(upper, s); }
  }

  lemma {:induction false} EncodeHexShape(upper: bool, bs: seq<Byte>)
    ensures |EncodeHex(upper, bs)| == 2 * |bs|
    ensures forall c | c in EncodeHex(upper, bs) :: HexValue(c).Some?
  {
    if bs == [] {
    } else {
      EncodeHexShape(upper, bs[1..]);
      HexValueUndoesDigit(upper, bs[0] / 16);
      HexValueUndoesDigit(upper, bs[0] % 16);
    }
  }
}

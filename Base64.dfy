/** The hand-written base64 decoder of the opportunity backend
  * (base64Decode), the encoder of section 4 of RFC 4648 that it is meant
  * to invert, and the decoder as its padding guards evidently intended. */
module Base64 {

  /** A byte of the decoded file. */
  type Byte = bv8

  /** The decoder's alphabet: the 64 characters of the base64 alphabet of
    * section 4 of RFC 4648, in order (A-Z, a-z, 0-9, '+', '/'), no '='. */
  const Chars: string := DigitsFrom(0)

  /** The alphabet characters for the values v, v + 1, ..., 63. */
  function DigitsFrom(v: nat): (s: string)
    requires v <= 64
    ensures |s| == 64 - v
    ensures forall k :: 0 <= k < |s| ==> s[k] == DigitChar(v + k)
    decreases 64 - v
  {
    if v == 64 then "" else [DigitChar(v)] + DigitsFrom(v + 1)
  }

  /** Which alphabet string the decoder searches: the one the source has
    * (no '='), or the one its `!== 64` guards were written for, where '='
    * stands at index 64. */
  datatype Alphabet = AsWritten | WithPad

  function AlphabetChars(alpha: Alphabet): (s: string)
    ensures |s| == if alpha.AsWritten? then 64 else 65
  {
    if alpha.AsWritten? then Chars else Chars + "="
  }

  /** The value of a base64 digit, or -1 for any other character. */
  function Digit(c: char): (v: int)
    ensures -1 <= v < 64
  {
    if 'A' <= c <= 'Z' then c as int - 'A' as int
    else if 'a' <= c <= 'z' then c as int - 'a' as int + 26
    else if '0' <= c <= '9' then c as int - '0' as int + 52
    else if c == '+' then 62
    else if c == '/' then 63
    else -1
  }

  /** `chars.indexOf(c)` for one character c (lemma PositionIsIndexOf). */
  function Position(alpha: Alphabet, c: char): (v: int)
    ensures -1 <= v < |AlphabetChars(alpha)|
  {
    if alpha.WithPad? && c == '=' then 64 else Digit(c)
  }

  /** `base64.charAt(k)`: the one-character string at k, or "" past the end. */
  function CharAt(s: string, k: nat): (t: string)
    ensures |t| <= 1
    ensures k < |s| <==> |t| == 1
  {
    if k < |s| then [s[k]] else ""
  }

  /** `chars.indexOf(t)` for a string of at most one character; the empty
    * string is found at index 0. */
  function IndexOf(alpha: Alphabet, t: string): (v: int)
    requires |t| <= 1
    ensures -1 <= v < |AlphabetChars(alpha)|
  {
    if t == "" then 0 else Position(alpha, t[0])
  }

  /** A JavaScript number in -1..64 as the 32-bit integer that the shift
    * and `|` operators work on: -1 has every bit set. */
  function Int32(e: int): bv32
    requires -1 <= e <= 64
  {
    if e < 0 then 0xFFFF_FFFF else Small(e)
  }

  /** The bit pattern of a small non-negative number, counted up one at a
    * time so that the solver never converts a symbolic integer. */
  function Small(n: int): bv32
    requires 0 <= n <= 64
    decreases n
  {
    if n == 0 then 0 else Small(n - 1) + 1
  }

  lemma {:induction false} SmallValue(n: int)
    requires 0 <= n <= 64
    ensures Small(n) as int == n
    decreases n
  {
    if n > 0 {
      SmallValue(n - 1);
    }
  }

  /** `String.fromCharCode(x)` for a code below 256. */
  function FromCharCode(x: bv32): (c: char)
    requires x < 256
    ensures c as int < 256
  {
    (x as int) as char
  }

  /** The 32-bit form of the indexOf result of every input character. */
  function Codes(alpha: Alphabet, s: string): (codes: seq<bv32>)
    ensures |codes| == |s|
    ensures forall k :: 0 <= k < |s| ==> codes[k] == Int32(Position(alpha, s[k]))
  {
    seq(|s|, k requires 0 <= k < |s| => Int32(Position(alpha, s[k])))
  }

  /** The code the loop reads at position k: past the end, charAt gives ""
    * and indexOf("") gives 0. */
  function CodeAt(codes: seq<bv32>, k: nat): bv32
  {
    if k < |codes| then codes[k] else 0
  }

  /** The bytes one group of four codes adds to the result: the middle one
    * unless the third code is 64, the last one unless the fourth is. */
  function Group(e1: bv32, e2: bv32, e3: bv32, e4: bv32): (r: seq<Byte>)
    ensures 1 <= |r| <= 3
    ensures |r| == 3 <==> e3 != 64 && e4 != 64
  {
    var bitmap := (e1 << 18) | (e2 << 12) | (e3 << 6) | e4;
    var r1 := [((bitmap >> 16) & 255) as Byte];
    var r2 := if e3 != 64 then r1 + [((bitmap >> 8) & 255) as Byte] else r1;
    if e4 != 64 then r2 + [(bitmap & 255) as Byte] else r2
  }

  function GroupAt(codes: seq<bv32>, i: nat): (r: seq<Byte>)
  {
    Group(CodeAt(codes, i), CodeAt(codes, i + 1), CodeAt(codes, i + 2), CodeAt(codes, i + 3))
  }

  /** The bytes the loop produces from position i on. */
  function DecodeFrom(codes: seq<bv32>, i: nat): (r: seq<Byte>)
    decreases |codes| - i
  {
    if i >= |codes| then [] else GroupAt(codes, i) + DecodeFrom(codes, i + 4)
  }

  /** The bytes base64Decode produces for s with the given alphabet. */
  function Decoded(alpha: Alphabet, s: string): seq<Byte>
  {
    DecodeFrom(Codes(alpha, s), 0)
  }

  /** The bytes as the characters `String.fromCharCode` gives for them. */
  function Latin1(b: seq<Byte>): (s: string)
    ensures |s| == |b|
    decreases |b|
  {
    if |b| == 0 then "" else Latin1(b[..|b| - 1]) + [(b[|b| - 1] as int) as char]
  }

  /** Every character of Latin1(b) has the code of its byte. */
  lemma {:induction false} Latin1Codes(b: seq<Byte>)
    ensures forall k :: 0 <= k < |b| ==> Latin1(b)[k] as int == b[k] as int
    decreases |b|
  {
    if |b| > 0 {
      Latin1Codes(b[..|b| - 1]);
    }
  }

  /** base64Decode with the given alphabet: a while loop over groups of
    * four characters, appending one to three characters per group. */
  method Decode(alpha: Alphabet, base64: string) returns (result: string)
    ensures result == Latin1(Decoded(alpha, base64))
  {
    ghost var codes := Codes(alpha, base64);
    ghost var bytes: seq<Byte> := [];
    result := "";
    var i: nat := 0;
    NilAppend(DecodeFrom(codes, 0));
    while i < |base64|
      invariant result == Latin1(bytes)
      invariant bytes + DecodeFrom(codes, i) == DecodeFrom(codes, 0)
    {
      ghost var start := i;
      var encoded1 := IndexOf(alpha, CharAt(base64, i));
      i := i + 1;
      var encoded2 := IndexOf(alpha, CharAt(base64, i));
      i := i + 1;
      var encoded3 := IndexOf(alpha, CharAt(base64, i));
      i := i + 1;
      var encoded4 := IndexOf(alpha, CharAt(base64, i));
      i := i + 1;

      var bitmap := (Int32(encoded1) << 18) | (Int32(encoded2) << 12) | (Int32(encoded3) << 6) | Int32(encoded4);

      ghost var before := result;
      result := result + [FromCharCode((bitmap >> 16) & 255)];
      if encoded3 != 64 {
        result := result + [FromCharCode((bitmap >> 8) & 255)];
      }
      if encoded4 != 64 {
        result := result + [FromCharCode(bitmap & 255)];
      }
      ghost var group := Appended(bitmap, encoded3 != 64, encoded4 != 64);
      AppendedChars(bytes, before, bitmap, encoded3 != 64, encoded4 != 64, result);
      GroupStep(alpha, base64, start, encoded1, encoded2, encoded3, encoded4, bitmap, group);
      DecodeStep(codes, start, group, DecodeFrom(codes, i));
      Regroup(bytes, group, DecodeFrom(codes, i), DecodeFrom(codes, 0));
      bytes := bytes + group;
    }
    AppendNil(bytes);
  }

  lemma AppendNil<T>(a: seq<T>)
    ensures a + [] == a
  {
  }

  lemma NilAppend<T>(a: seq<T>)
    ensures [] + a == a
  {
  }

  lemma Assoc<T>(a: seq<T>, b: seq<T>, c: seq<T>)
    ensures (a + b) + c == a + (b + c)
  {
  }

  lemma Regroup<T>(a: seq<T>, g: seq<T>, rest: seq<T>, whole: seq<T>)
    requires a + (g + rest) == whole
    ensures (a + g) + rest == whole
  {
  }

  /** The bytes the loop body appends for a bitmap: the high one, then
    * the middle one and the low one unless they are skipped. */
  function Appended(m: bv32, middle: bool, low: bool): seq<Byte>
  {
    var g1 := [((m >> 16) & 255) as Byte];
    var g2 := if middle then g1 + [((m >> 8) & 255) as Byte] else g1;
    if low then g2 + [(m & 255) as Byte] else g2
  }

  /** The characters the loop body appends are those of the appended bytes. */
  lemma AppendedChars(bytes: seq<Byte>, before: string, m: bv32, middle: bool, low: bool, after: string)
    requires before == Latin1(bytes)
    requires var r1 := before + [FromCharCode((m >> 16) & 255)];
      var r2 := if middle then r1 + [FromCharCode((m >> 8) & 255)] else r1;
      after == if low then r2 + [FromCharCode(m & 255)] else r2
    ensures after == Latin1(bytes + Appended(m, middle, low))
  {
    var r1 := before + [FromCharCode((m >> 16) & 255)];
    var r2 := if middle then r1 + [FromCharCode((m >> 8) & 255)] else r1;
    HighMiddleChars(bytes, before, m, middle);
    if low {
      AppendStep(bytes, Appended(m, middle, false), m & 255, r2);
    }
  }

  lemma HighMiddleChars(bytes: seq<Byte>, before: string, m: bv32, middle: bool)
    requires before == Latin1(bytes)
    ensures var r1 := before + [FromCharCode((m >> 16) & 255)];
      (if middle then r1 + [FromCharCode((m >> 8) & 255)] else r1) == Latin1(bytes + Appended(m, middle, false))
  {
    var g1 := [((m >> 16) & 255) as Byte];
    var r1 := before + [FromCharCode((m >> 16) & 255)];
    Latin1Snoc(bytes, (m >> 16) & 255);
    if middle {
      AppendStep(bytes, g1, (m >> 8) & 255, r1);
    }
  }

  lemma AppendStep(bytes: seq<Byte>, g: seq<Byte>, w: bv32, chars: string)
    requires w < 256 && chars == Latin1(bytes + g)
    ensures chars + [FromCharCode(w)] == Latin1(bytes + (g + [w as Byte]))
  {
    Latin1Snoc(bytes + g, w);
    Assoc(bytes, g, [w as Byte]);
  }

  /** Appending a character code appends its byte. */
  lemma Latin1Snoc(b: seq<Byte>, w: bv32)
    requires w < 256
    ensures Latin1(b + [w as Byte]) == Latin1(b) + [FromCharCode(w)]
  {
    LowByteChar(w);
    Prefix(b, w as Byte);
  }

  lemma Prefix<T>(a: seq<T>, x: T)
    ensures (a + [x])[..|a|] == a && (a + [x])[|a|] == x
  {
  }

  /** The bytes one pass of the loop body appends are the group at i. */
  lemma GroupStep(alpha: Alphabet, s: string, i: nat, e1: int, e2: int, e3: int, e4: int, m: bv32, group: seq<Byte>)
    requires e1 == IndexOf(alpha, CharAt(s, i)) && e2 == IndexOf(alpha, CharAt(s, i + 1))
    requires e3 == IndexOf(alpha, CharAt(s, i + 2)) && e4 == IndexOf(alpha, CharAt(s, i + 3))
    requires m == (Int32(e1) << 18) | (Int32(e2) << 12) | (Int32(e3) << 6) | Int32(e4)
    requires group == Appended(m, e3 != 64, e4 != 64)
    ensures group == GroupAt(Codes(alpha, s), i)
  {
    Int32Is64(e3);
    Int32Is64(e4);
    assert group == Group(Int32(e1), Int32(e2), Int32(e3), Int32(e4));
    CodesGroup(alpha, s, i);
  }

  lemma CodesGroup(alpha: Alphabet, s: string, i: nat)
    ensures GroupAt(Codes(alpha, s), i) == Group(Int32(IndexOf(alpha, CharAt(s, i))), Int32(IndexOf(alpha, CharAt(s, i + 1))),
                                                 Int32(IndexOf(alpha, CharAt(s, i + 2))), Int32(IndexOf(alpha, CharAt(s, i + 3))))
  {
    CodeAtIndexOf(alpha, s, i);
    CodeAtIndexOf(alpha, s, i + 1);
    CodeAtIndexOf(alpha, s, i + 2);
    CodeAtIndexOf(alpha, s, i + 3);
  }

  lemma CodeAtIndexOf(alpha: Alphabet, s: string, k: nat)
    ensures CodeAt(Codes(alpha, s), k) == Int32(IndexOf(alpha, CharAt(s, k)))
  {
  }

  lemma Int32Is64(e: int)
    requires -1 <= e <= 64
    ensures Int32(e) == 64 <==> e == 64
  {
    if e >= 0 {
      SmallValue(e);
    }
  }

  lemma LowByteChar(w: bv32)
    requires w < 256
    ensures FromCharCode(w) == ((w as Byte) as int) as char
  {
  }

  /** base64Decode exactly as the source has it: three characters for every
    * started group of four, each a code below 256. */
  method Base64Decode(base64: string) returns (result: string)
    ensures result == Latin1(Decoded(AsWritten, base64))
    ensures |result| == 3 * ((|base64| + 3) / 4)
    ensures forall k :: 0 <= k < |result| ==> result[k] as int < 256
  {
    result := Decode(AsWritten, base64);
    DecodeLength(base64);
    Latin1Codes(Decoded(AsWritten, base64));
  }

  /** The decoder its guards were written for, with '=' at index 64: it
    * returns the bytes of every base64 encoding. */
  method Base64DecodePadded(base64: string) returns (result: string)
    ensures result == Latin1(Decoded(WithPad, base64))
    ensures forall b: seq<Byte> :: base64 == Encode(b) ==> result == Latin1(b)
  {
    result := Decode(WithPad, base64);
    forall b: seq<Byte> | base64 == Encode(b)
      ensures result == Latin1(b)
    {
      DecodePaddedEncode(b);
    }
  }

  // ---------------------------------------------------------------------
  // The alphabet

  /** Position is `indexOf` on the alphabet string: every character of the
    * alphabet is found at its own index, and a character that is found is
    * the one standing at that index. */
  lemma PositionIsIndexOf(alpha: Alphabet)
    ensures forall k :: 0 <= k < |AlphabetChars(alpha)| ==> Position(alpha, AlphabetChars(alpha)[k]) == k
    ensures forall c :: Position(alpha, c) >= 0 ==> AlphabetChars(alpha)[Position(alpha, c)] == c
  {
    forall k | 0 <= k < |AlphabetChars(alpha)|
      ensures Position(alpha, AlphabetChars(alpha)[k]) == k
    {
      if k < 64 {
        assert AlphabetChars(alpha)[k] == Chars[k];
        DigitOfChars(k);
      }
    }
    forall c | Position(alpha, c) >= 0
      ensures AlphabetChars(alpha)[Position(alpha, c)] == c
    {
      if Position(alpha, c) < 64 {
        DigitOfChars(Digit(c));
        DigitCharOfDigit(c);
        assert AlphabetChars(alpha)[Digit(c)] == Chars[Digit(c)];
      }
    }
  }

  lemma DigitOfChars(k: int)
    requires 0 <= k < 64
    ensures Chars[k] == DigitChar(k) && Digit(Chars[k]) == k
  {
  }

  lemma DigitCharOfDigit(c: char)
    requires Digit(c) >= 0
    ensures DigitChar(Digit(c)) == c
  {
  }

  // ---------------------------------------------------------------------
  // Section 4 of RFC 4648: the encoder

  /** The alphabet character for a 6-bit value. */
  function DigitChar(v: int): (c: char)
    requires 0 <= v < 64
    ensures Digit(c) == v
  {
    if v < 26 then ('A' as int + v) as char
    else if v < 52 then ('a' as int + v - 26) as char
    else if v < 62 then ('0' as int + v - 52) as char
    else if v == 62 then '+' else '/'
  }

  /** The 24-bit group of up to three bytes, first byte highest; missing
    * bytes are zero bits. */
  function Word(b0: Byte, b1: Byte, b2: Byte): bv32
  {
    ((b0 as bv32) << 16) | ((b1 as bv32) << 8) | (b2 as bv32)
  }

  /** The 6-bit value that starts `shift` bits above the bottom of w. */
  function Sextet(w: bv32, shift: bv32): (v: int)
    requires shift <= 18
    ensures 0 <= v < 64
  {
    ((w >> shift) & 63) as int
  }

  function SextetChar(w: bv32, shift: bv32): char
    requires shift <= 18
  {
    DigitChar(Sextet(w, shift))
  }

  /** Base64 encoding: each 24-bit group becomes four characters; a final
    * group of one or two bytes is completed with "==" or "=". */
  function Encode(b: seq<Byte>): (s: string)
    decreases |b|
  {
    if |b| == 0 then ""
    else if |b| == 1 then
      var w := Word(b[0], 0, 0);
      [SextetChar(w, 18), SextetChar(w, 12), '=', '=']
    else if |b| == 2 then
      var w := Word(b[0], b[1], 0);
      [SextetChar(w, 18), SextetChar(w, 12), SextetChar(w, 6), '=']
    else
      var w := Word(b[0], b[1], b[2]);
      [SextetChar(w, 18), SextetChar(w, 12), SextetChar(w, 6), SextetChar(w, 0)] + Encode(b[3..])
  }

  /** Four characters for every started group of three bytes. */
  lemma {:induction false} EncodeLength(b: seq<Byte>)
    ensures |Encode(b)| == 4 * ((|b| + 2) / 3)
    decreases |b|
  {
    if |b| > 3 {
      EncodeLength(b[3..]);
    }
  }

  // ---------------------------------------------------------------------
  // Properties of the decoder

  /** As no character maps to 64, the decoder as written emits three bytes
    * for every started group of four characters. */
  lemma DecodeLength(s: string)
    ensures |Decoded(AsWritten, s)| == 3 * ((|s| + 3) / 4)
  {
    forall k | 0 <= k < |s|
      ensures Codes(AsWritten, s)[k] != 64
    {
      Int32Is64(Position(AsWritten, s[k]));
    }
    DecodeFromLength(Codes(AsWritten, s), 0);
  }

  lemma {:induction false} DecodeFromLength(codes: seq<bv32>, i: nat)
    requires forall k :: 0 <= k < |codes| ==> codes[k] != 64
    requires i % 4 == 0
    ensures |DecodeFrom(codes, i)| == if i >= |codes| then 0 else 3 * ((|codes| - i + 3) / 4)
    decreases |codes| - i
  {
    if i < |codes| {
      DecodeFromLength(codes, i + 4);
    }
  }

  /** The decoder reads back the 6-bit value an encoded digit stands for. */
  lemma SextetCode(alpha: Alphabet, w: bv32, shift: bv32)
    requires shift <= 18
    ensures Int32(Position(alpha, SextetChar(w, shift))) == (w >> shift) & 63
  {
    WordIntRoundTrip((w >> shift) & 63);
  }

  lemma WordIntRoundTrip(d: bv32)
    requires d < 64
    ensures Small(d as int) == d
  {
    SmallValue(d as int);
  }

  /** Three bytes encoded as four digits come back out of the bitmap. */
  lemma GroupOfThree(b0: Byte, b1: Byte, b2: Byte)
    ensures var w := Word(b0, b1, b2);
      Group((w >> 18) & 63, (w >> 12) & 63, (w >> 6) & 63, w & 63) == [b0, b1, b2]
  {
  }

  /** A final byte padded with "==" comes back out when '=' is 64. */
  lemma OneBytePadded(b0: Byte)
    ensures var w := Word(b0, 0, 0);
      Group((w >> 18) & 63, (w >> 12) & 63, 64, 64) == [b0]
  {
  }

  /** Two final bytes padded with "=" come back out when '=' is 64. */
  lemma TwoBytesPadded(b0: Byte, b1: Byte)
    ensures var w := Word(b0, b1, 0);
      Group((w >> 18) & 63, (w >> 12) & 63, (w >> 6) & 63, 64) == [b0, b1]
  {
  }

  /** Encoding distributes over concatenation at a group boundary. */
  lemma {:induction false} EncodeAppend(p: seq<Byte>, r: seq<Byte>)
    requires |p| % 3 == 0
    ensures Encode(p + r) == Encode(p) + Encode(r)
    decreases |p|
  {
    if |p| == 0 {
      assert p + r == r;
    } else {
      assert (p + r)[3..] == p[3..] + r;
      EncodeAppend(p[3..], r);
    }
  }

  /** The four characters of a group fix the codes the decoder reads. */
  lemma GroupOfChars(alpha: Alphabet, s: string, i: nat, c1: char, c2: char, c3: char, c4: char)
    requires i + 4 <= |s| && s[i] == c1 && s[i + 1] == c2 && s[i + 2] == c3 && s[i + 3] == c4
    ensures GroupAt(Codes(alpha, s), i)
         == Group(Int32(Position(alpha, c1)), Int32(Position(alpha, c2)), Int32(Position(alpha, c3)), Int32(Position(alpha, c4)))
  {
  }

  /** The 24-bit group of the first (up to three) bytes of r. */
  function HeadWord(r: seq<Byte>): bv32
    requires |r| > 0
  {
    Word(r[0], if |r| > 1 then r[1] else 0, if |r| > 2 then r[2] else 0)
  }

  /** The first four characters of an encoding: two digits, then a third
    * and a fourth digit or '='. */
  lemma EncodeHead(r: seq<Byte>)
    requires |r| > 0
    ensures |Encode(r)| >= 4
    ensures Encode(r)[0] == SextetChar(HeadWord(r), 18)
    ensures Encode(r)[1] == SextetChar(HeadWord(r), 12)
    ensures Encode(r)[2] == if |r| > 1 then SextetChar(HeadWord(r), 6) else '='
    ensures Encode(r)[3] == if |r| > 2 then SextetChar(HeadWord(r), 0) else '='
  {
  }

  /** The group of the encoding that starts at position i decodes to the
    * first (up to three) bytes of the encoded suffix r. */
  lemma DecodeGroup(alpha: Alphabet, s: string, i: nat, r: seq<Byte>)
    requires |r| > 0 && i <= |s| && s[i..] == Encode(r)
    requires |r| < 3 ==> alpha.WithPad?
    ensures |r| >= 3 ==> GroupAt(Codes(alpha, s), i) == r[..3]
    ensures |r| < 3 ==> GroupAt(Codes(alpha, s), i) == r
  {
    EncodeHead(r);
    assert s[i] == Encode(r)[0] && s[i + 1] == Encode(r)[1] && s[i + 2] == Encode(r)[2] && s[i + 3] == Encode(r)[3];
    Take3(r);
    if |r| >= 3 {
      DecodeFull(alpha, s, i, r[0], r[1], r[2]);
    } else if |r| == 1 {
      DecodeOne(s, i, r[0]);
    } else {
      DecodeTwo(s, i, r[0], r[1]);
    }
  }

  lemma Take3<T>(r: seq<T>)
    ensures |r| >= 3 ==> r[..3] == [r[0], r[1], r[2]]
    ensures |r| == 2 ==> r == [r[0], r[1]]
    ensures |r| == 1 ==> r == [r[0]]
  {
  }

  lemma DecodeFull(alpha: Alphabet, s: string, i: nat, b0: Byte, b1: Byte, b2: Byte)
    requires var w := Word(b0, b1, b2);
      i + 4 <= |s| && s[i] == SextetChar(w, 18) && s[i + 1] == SextetChar(w, 12)
      && s[i + 2] == SextetChar(w, 6) && s[i + 3] == SextetChar(w, 0)
    ensures GroupAt(Codes(alpha, s), i) == [b0, b1, b2]
  {
    var w := Word(b0, b1, b2);
    GroupOfChars(alpha, s, i, SextetChar(w, 18), SextetChar(w, 12), SextetChar(w, 6), SextetChar(w, 0));
    SextetCode(alpha, w, 18); SextetCode(alpha, w, 12); SextetCode(alpha, w, 6); SextetCode(alpha, w, 0);
    GroupOfThree(b0, b1, b2);
  }

  lemma DecodeOne(s: string, i: nat, b0: Byte)
    requires var w := Word(b0, 0, 0);
      i + 4 <= |s| && s[i] == SextetChar(w, 18) && s[i + 1] == SextetChar(w, 12) && s[i + 2] == '=' && s[i + 3] == '='
    ensures GroupAt(Codes(WithPad, s), i) == [b0]
  {
    var w := Word(b0, 0, 0);
    GroupOfChars(WithPad, s, i, SextetChar(w, 18), SextetChar(w, 12), '=', '=');
    SextetCode(WithPad, w, 18); SextetCode(WithPad, w, 12); PadCode();
    OneBytePadded(b0);
  }

  lemma DecodeTwo(s: string, i: nat, b0: Byte, b1: Byte)
    requires var w := Word(b0, b1, 0);
      i + 4 <= |s| && s[i] == SextetChar(w, 18) && s[i + 1] == SextetChar(w, 12)
      && s[i + 2] == SextetChar(w, 6) && s[i + 3] == '='
    ensures GroupAt(Codes(WithPad, s), i) == [b0, b1]
  {
    var w := Word(b0, b1, 0);
    GroupOfChars(WithPad, s, i, SextetChar(w, 18), SextetChar(w, 12), SextetChar(w, 6), '=');
    SextetCode(WithPad, w, 18); SextetCode(WithPad, w, 12); SextetCode(WithPad, w, 6); PadCode();
    TwoBytesPadded(b0, b1);
  }

  /** With the padded alphabet, '=' is read as 64. */
  lemma PadCode()
    ensures Int32(Position(WithPad, '=')) == 64
  {
    Int32Is64(64);
  }

  lemma PlusThree(n: int)
    ensures (n + 3) % 3 == n % 3
  {
  }

  /** Moving the first n elements of r over to p. */
  lemma SplitAfter<T>(p: seq<T>, r: seq<T>, n: nat)
    requires n <= |r|
    ensures (p + r[..n]) + r[n..] == p + r
    ensures r[..n] + r[n..] == r
    ensures r[..n] + [] == r[..n]
  {
  }

  /** The induction behind both round trips: decoding from the position
    * where the encoding of the suffix r of b starts gives r back. */
  lemma {:induction false} DecodeEncodeFrom(alpha: Alphabet, b: seq<Byte>, p: seq<Byte>, r: seq<Byte>)
    requires b == p + r && |p| % 3 == 0
    requires alpha.AsWritten? ==> |r| % 3 == 0
    ensures DecodeFrom(Codes(alpha, Encode(b)), |Encode(p)|) == r
    decreases |r|
  {
    if |r| < 3 {
      DecodeLast(alpha, b, p, r);
    } else {
      Advance(p, r);
      DecodeEncodeFrom(alpha, b, p + r[..3], r[3..]);
      DecodeNext(alpha, b, p, r);
    }
  }

  /** The encoding of a suffix of fewer than three bytes decodes to it. */
  lemma DecodeLast(alpha: Alphabet, b: seq<Byte>, p: seq<Byte>, r: seq<Byte>)
    requires b == p + r && |p| % 3 == 0 && |r| < 3
    requires alpha.AsWritten? ==> |r| % 3 == 0
    ensures DecodeFrom(Codes(alpha, Encode(b)), |Encode(p)|) == r
  {
    var s := Encode(b);
    var i := |Encode(p)|;
    EncodeAppend(p, r);
    Suffix(Encode(p), Encode(r));
    if |r| > 0 {
      DecodeGroup(alpha, s, i, r);
      SplitAfter(p, r, |r|);
      DecodeStep(Codes(alpha, s), i, r, []);
    }
  }

  /** A whole group followed by the decoded rest. */
  lemma DecodeNext(alpha: Alphabet, b: seq<Byte>, p: seq<Byte>, r: seq<Byte>)
    requires b == p + r && |p| % 3 == 0 && |r| >= 3
    requires DecodeFrom(Codes(alpha, Encode(b)), |Encode(p)| + 4) == r[3..]
    ensures DecodeFrom(Codes(alpha, Encode(b)), |Encode(p)|) == r
  {
    var s := Encode(b);
    var i := |Encode(p)|;
    EncodeAppend(p, r);
    Suffix(Encode(p), Encode(r));
    DecodeGroup(alpha, s, i, r);
    SplitAfter(p, r, 3);
    DecodeStep(Codes(alpha, s), i, r[..3], r[3..]);
  }

  /** The next group boundary: three more bytes, four more characters. */
  lemma Advance(p: seq<Byte>, r: seq<Byte>)
    requires |r| >= 3 && |p| % 3 == 0
    ensures |Encode(p + r[..3])| == |Encode(p)| + 4
    ensures |p + r[..3]| % 3 == 0 && |r[3..]| % 3 == |r| % 3
    ensures (p + r[..3]) + r[3..] == p + r && r[..3] + r[3..] == r
  {
    SplitAfter(p, r, 3);
    PlusThree(|p|);
    PlusThree(|r| - 3);
    EncodeAppend(p, r[..3]);
    EncodeThree(r[..3]);
  }

  lemma EncodeThree(x: seq<Byte>)
    requires |x| == 3
    ensures |Encode(x)| == 4
  {
    assert |Encode(x[3..])| == 0;
  }

  lemma Suffix<T>(x: seq<T>, y: seq<T>)
    ensures (x + y)[|x|..] == y
  {
  }

  /** The loop's step: one group, then the rest. */
  lemma DecodeStep(codes: seq<bv32>, i: nat, g: seq<Byte>, rest: seq<Byte>)
    requires i < |codes| && GroupAt(codes, i) == g && DecodeFrom(codes, i + 4) == rest
    ensures DecodeFrom(codes, i) == g + rest
  {
  }

  /** Decoding inverts encoding for whole groups: with no padding in the
    * input, the decoder as written returns the encoded bytes. */
  lemma DecodeEncode(b: seq<Byte>)
    requires |b| % 3 == 0
    ensures Decoded(AsWritten, Encode(b)) == b
  {
    DecodeEncodeFrom(AsWritten, b, [], b);
  }

  /** With '=' at index 64 the decoder inverts the encoder on every input,
    * padded or not. */
  lemma DecodePaddedEncode(b: seq<Byte>)
    ensures Decoded(WithPad, Encode(b)) == b
  {
    DecodeEncodeFrom(WithPad, b, [], b);
  }

  /** The decoder as written on padded input: "AA==", the encoding of the
    * single byte 0, decodes to three bytes 0xFF, because '=' is not in the
    * alphabet, indexOf gives -1 and -1 sets every bit of the bitmap. */
  lemma PaddingDecodedAsWritten()
    ensures Encode([0]) == "AA=="
    ensures Decoded(AsWritten, "AA==") == [0xFF, 0xFF, 0xFF]
    ensures Decoded(AsWritten, Encode([0])) != [0]
  {
    var codes := Codes(AsWritten, "AA==");
    assert codes == [0, 0, 0xFFFF_FFFF, 0xFFFF_FFFF];
    assert DecodeFrom(codes, 4) == [];
    assert GroupAt(codes, 0) == [0xFF, 0xFF, 0xFF];
  }

  /** The decoder as written on every padded input: the encoding of a byte
    * string whose length is not a multiple of 3 decodes to more bytes than
    * were encoded, so never to the bytes themselves. */
  lemma PaddedEncodingsCorrupted(b: seq<Byte>)
    requires |b| % 3 != 0
    ensures |Decoded(AsWritten, Encode(b))| > |b|
    ensures Decoded(AsWritten, Encode(b)) != b
  {
    var q := (|b| + 2) / 3;
    EncodeLength(b);
    DecodeLength(Encode(b));
    assert (4 * q + 3) / 4 == q;
    assert q == |b| / 3 + 1;
  }
}

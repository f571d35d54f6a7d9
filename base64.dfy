/**
 * Strict base64 (section 4 of RFC 4648): the standard alphabet, `=` padding,
 * no line breaks. Encode is what Ruby's Base64.strict_encode64 produces;
 * Decode is the strict decoder a consumer of the token applies to it.
 */
module Base64 {
  import opened Wrappers
  import opened Bytes

  /** Characters of the standard alphabet (table 1 of RFC 4648). */
  predicate IsAlphabetChar(c: char) {
    ('A' <= c <= 'Z') || ('a' <= c <= 'z') || ('0' <= c <= '9') || c == '+' || c == '/'
  }

  const Pad: char := '='

  /** The alphabet character that encodes the 6-bit value `v`. */
  function Sextet(v: int): (c: char)
    requires 0 <= v < 64
    ensures IsAlphabetChar(c)
  {
    if v < 26 then ('A' as int + v) as char
    else if v < 52 then ('a' as int + (v - 26)) as char
    else if v < 62 then ('0' as int + (v - 52)) as char
    else if v == 62 then '+'
    else '/'
  }

  /** The 6-bit value an alphabet character stands for; None for any other character. */
  function SextetValue(c: char): (r: Option<int>)
    ensures r.Some? ==> 0 <= r.value < 64
  {
    if 'A' <= c <= 'Z' then Some(c as int - 'A' as int)
    else if 'a' <= c <= 'z' then Some(c as int - 'a' as int + 26)
    else if '0' <= c <= '9' then Some(c as int - '0' as int + 52)
    else if c == '+' then Some(62)
    else if c == '/' then Some(63)
    else None
  }

  lemma SextetValueOfSextet(v: int)
    requires 0 <= v < 64
    ensures SextetValue(Sextet(v)) == Some(v)
  {
  }

  /** Exactly the alphabet characters have a value, and each is the character for its value. */
  lemma SextetOfSextetValue(c: char)
    ensures SextetValue(c).Some? <==> IsAlphabetChar(c)
    ensures SextetValue(c).Some? ==> Sextet(SextetValue(c).value) == c
  {
  }

  /**
   * A strictly encoded text: its length is a multiple of 4, it holds only
   * alphabet characters except for one or two `=` closing the last quartet,
   * so in particular no line break.
   */
  predicate IsStrict(s: string) {
    && |s| % 4 == 0
    && (forall i :: 0 <= i < |s| ==> IsAlphabetChar(s[i]) || (s[i] == Pad && i >= |s| - 2))
    && (|s| > 0 && s[|s| - 2] == Pad ==> s[|s| - 1] == Pad)
  }

  /** Three bytes, 24 bits, as four sextets. */
  function EncodeBlock(b0: Byte, b1: Byte, b2: Byte): string {
    [Sextet(b0 / 4), Sextet(b0 % 4 * 16 + b1 / 16), Sextet(b1 % 16 * 4 + b2 / 64), Sextet(b2 % 64)]
  }

  /** A final single byte: two sextets, the second zero-filled, then `==`. */
  function EncodeLastOne(b0: Byte): string {
    [Sextet(b0 / 4), Sextet(b0 % 4 * 16), Pad, Pad]
  }

  /** A final pair of bytes: three sextets, the third zero-filled, then `=`. */
  function EncodeLastTwo(b0: Byte, b1: Byte): string {
    [Sextet(b0 / 4), Sextet(b0 % 4 * 16 + b1 / 16), Sextet(b1 % 16 * 4), Pad]
  }

  function Encode(b: seq<Byte>): (r: string)
    ensures |r| == 4 * ((|b| + 2) / 3)
    decreases |b|
  {
    if |b| == 0 then []
    else if |b| == 1 then EncodeLastOne(b[0])
    else if |b| == 2 then EncodeLastTwo(b[0], b[1])
    else
      var tail := Encode(b[3..]);
      assert (|b| + 2) / 3 == (|b| - 3 + 2) / 3 + 1;
      EncodeBlock(b[0], b[1], b[2]) + tail
  }

  /** Four alphabet characters in front of a strict text leave it strict. */
  lemma StrictPrepend(head: string, tail: string)
    requires |head| == 4 && forall i :: 0 <= i < 4 ==> IsAlphabetChar(head[i])
    requires IsStrict(tail)
    ensures IsStrict(head + tail)
  {
    var s := head + tail;
    forall i | 0 <= i < |s|
      ensures IsAlphabetChar(s[i]) || (s[i] == Pad && i >= |s| - 2)
    {
      if i < 4 {
        assert s[i] == head[i];
      } else {
        assert s[i] == tail[i - 4];
      }
    }
    if |tail| > 0 {
      assert s[|s| - 2] == tail[|tail| - 2] && s[|s| - 1] == tail[|tail| - 1];
    }
  }

  /** The encoder's output is strict: standard alphabet, padding only at the end, no line break. */
  lemma {:induction false} EncodeIsStrict(b: seq<Byte>)
    ensures IsStrict(Encode(b))
    decreases |b|
  {
    if |b| >= 3 {
      EncodeIsStrict(b[3..]);
      StrictPrepend(EncodeBlock(b[0], b[1], b[2]), Encode(b[3..]));
    }
  }

  /** Four alphabet characters back to three bytes. */
  function DecodeBlock(q: string): (r: Option<seq<Byte>>)
    requires |q| == 4
  {
    var v0, v1, v2, v3 := SextetValue(q[0]), SextetValue(q[1]), SextetValue(q[2]), SextetValue(q[3]);
    if v0.Some? && v1.Some? && v2.Some? && v3.Some? then
      Some([v0.value * 4 + v1.value / 16,
            v1.value % 16 * 16 + v2.value / 4,
            v2.value % 4 * 64 + v3.value])
    else None
  }

  /**
   * The last quartet, which may end in `==` (one byte) or `=` (two bytes).
   * The bits a padded quartet leaves over must be zero, as strict decoding demands.
   */
  function DecodeLast(q: string): (r: Option<seq<Byte>>)
    requires |q| == 4
  {
    if q[2] == Pad && q[3] == Pad then
      var v0, v1 := SextetValue(q[0]), SextetValue(q[1]);
      if v0.Some? && v1.Some? && v1.value % 16 == 0 then
        Some([v0.value * 4 + v1.value / 16])
      else None
    else if q[3] == Pad then
      var v0, v1, v2 := SextetValue(q[0]), SextetValue(q[1]), SextetValue(q[2]);
      if v0.Some? && v1.Some? && v2.Some? && v2.value % 4 == 0 then
        Some([v0.value * 4 + v1.value / 16, v1.value % 16 * 16 + v2.value / 4])
      else None
    else DecodeBlock(q)
  }

  /** Strict decoding: None for a wrong length, a foreign character, misplaced padding or stray bits. */
  function Decode(s: string): (r: Option<seq<Byte>>)
    decreases |s|
  {
    if |s| == 0 then Some([])
    else if |s| < 4 then None
    else if |s| == 4 then DecodeLast(s)
    else
      match DecodeBlock(s[..4])
      case None => None
      case Some(head) =>
        match Decode(s[4..])
        case None => None
        case Some(tail) => Some(head + tail)
  }

  /** Division by a constant, in the form the block arithmetic below needs it. */
  lemma DivMod(q: int, r: int, d: int)
    requires d == 4 || d == 16 || d == 64
    requires 0 <= r < d
    ensures (q * d + r) / d == q && (q * d + r) % d == r
  {
  }

  /** The sextets of a block put back together give the block. */
  lemma BlockArithmetic(b0: Byte, b1: Byte, b2: Byte)
    ensures b0 / 4 * 4 + (b0 % 4 * 16 + b1 / 16) / 16 == b0
    ensures (b0 % 4 * 16 + b1 / 16) % 16 * 16 + (b1 % 16 * 4 + b2 / 64) / 4 == b1
    ensures (b1 % 16 * 4 + b2 / 64) % 4 * 64 + b2 % 64 == b2
  {
    DivMod(b0 % 4, b1 / 16, 16);
    DivMod(b1 % 16, b2 / 64, 4);
  }

  /** Decoding four alphabet characters gives the bytes their values pack into. */
  lemma DecodeBlockOfSextets(v0: int, v1: int, v2: int, v3: int, b0: Byte, b1: Byte, b2: Byte)
    requires 0 <= v0 < 64 && 0 <= v1 < 64 && 0 <= v2 < 64 && 0 <= v3 < 64
    requires v0 * 4 + v1 / 16 == b0 && v1 % 16 * 16 + v2 / 4 == b1 && v2 % 4 * 64 + v3 == b2
    ensures DecodeBlock([Sextet(v0), Sextet(v1), Sextet(v2), Sextet(v3)]) == Some([b0, b1, b2])
    ensures DecodeLast([Sextet(v0), Sextet(v1), Sextet(v2), Sextet(v3)]) == Some([b0, b1, b2])
  {
    SextetValueOfSextet(v0);
    SextetValueOfSextet(v1);
    SextetValueOfSextet(v2);
    SextetValueOfSextet(v3);
  }

  /** Decoding a closing quartet of two alphabet characters and two pads gives the one byte they pack into. */
  lemma DecodeLastOneOfSextets(v0: int, v1: int, b0: Byte)
    requires 0 <= v0 < 64 && 0 <= v1 < 64 && v1 % 16 == 0
    requires v0 * 4 + v1 / 16 == b0
    ensures DecodeLast([Sextet(v0), Sextet(v1), Pad, Pad]) == Some([b0])
  {
    SextetValueOfSextet(v0);
    SextetValueOfSextet(v1);
  }

  /** Decoding a closing quartet of three alphabet characters and a pad gives the two bytes they pack into. */
  lemma DecodeLastTwoOfSextets(v0: int, v1: int, v2: int, b0: Byte, b1: Byte)
    requires 0 <= v0 < 64 && 0 <= v1 < 64 && 0 <= v2 < 64 && v2 % 4 == 0
    requires v0 * 4 + v1 / 16 == b0 && v1 % 16 * 16 + v2 / 4 == b1
    ensures DecodeLast([Sextet(v0), Sextet(v1), Sextet(v2), Pad]) == Some([b0, b1])
  {
    SextetValueOfSextet(v0);
    SextetValueOfSextet(v1);
    SextetValueOfSextet(v2);
  }

  /** The sextets EncodeBlock writes, with the bytes they pack back into. */
  lemma BlockSextets(b0: Byte, b1: Byte, b2: Byte) returns (s0: int, s1: int, s2: int, s3: int)
    ensures 0 <= s0 < 64 && 0 <= s1 < 64 && 0 <= s2 < 64 && 0 <= s3 < 64
    ensures EncodeBlock(b0, b1, b2) == [Sextet(s0), Sextet(s1), Sextet(s2), Sextet(s3)]
    ensures s0 * 4 + s1 / 16 == b0 && s1 % 16 * 16 + s2 / 4 == b1 && s2 % 4 * 64 + s3 == b2
  {
    s0, s1, s2, s3 := b0 / 4, b0 % 4 * 16 + b1 / 16, b1 % 16 * 4 + b2 / 64, b2 % 64;
    BlockArithmetic(b0, b1, b2);
  }

  /** The sextets EncodeLastOne and EncodeLastTwo write, with the bytes they pack back into. */
  lemma LastSextets(b0: Byte, b1: Byte) returns (s0: int, s1: int, s1': int, s2: int)
    ensures 0 <= s0 < 64 && 0 <= s1 < 64 && 0 <= s1' < 64 && 0 <= s2 < 64
    ensures EncodeLastOne(b0) == [Sextet(s0), Sextet(s1), Pad, Pad]
    ensures EncodeLastTwo(b0, b1) == [Sextet(s0), Sextet(s1'), Sextet(s2), Pad]
    ensures s1 % 16 == 0 && s0 * 4 + s1 / 16 == b0
    ensures s2 % 4 == 0 && s0 * 4 + s1' / 16 == b0 && s1' % 16 * 16 + s2 / 4 == b1
  {
    s0, s1, s1', s2 := b0 / 4, b0 % 4 * 16, b0 % 4 * 16 + b1 / 16, b1 % 16 * 4;
    BlockArithmetic(b0, 0, 0);
    BlockArithmetic(b0, b1, 0);
    DivMod(b0 % 4, 0, 16);
    DivMod(b1 % 16, 0, 4);
  }

  lemma DecodeEncodeBlock(b0: Byte, b1: Byte, b2: Byte)
    ensures DecodeBlock(EncodeBlock(b0, b1, b2)) == Some([b0, b1, b2])
    ensures DecodeLast(EncodeBlock(b0, b1, b2)) == Some([b0, b1, b2])
  {
    var s0, s1, s2, s3 := BlockSextets(b0, b1, b2);
    DecodeBlockOfSextets(s0, s1, s2, s3, b0, b1, b2);
  }

  lemma DecodeEncodeLast(b0: Byte, b1: Byte)
    ensures DecodeLast(EncodeLastOne(b0)) == Some([b0])
    ensures DecodeLast(EncodeLastTwo(b0, b1)) == Some([b0, b1])
  {
    var s0, s1, s1', s2 := LastSextets(b0, b1);
    DecodeLastOneOfSextets(s0, s1, b0);
    DecodeLastTwoOfSextets(s0, s1', s2, b0, b1);
  }

  lemma SplitFirstThree(b: seq<Byte>)
    requires |b| >= 3
    ensures [b[0], b[1], b[2]] + b[3..] == b
  {
    assert b[..3] == [b[0], b[1], b[2]];
    assert b[..3] + b[3..] == b;
  }

  /** A full quartet followed by a decodable text of at least one quartet decodes to both parts in turn. */
  lemma DecodePrepend(head: string, tail: string, h: seq<Byte>, t: seq<Byte>)
    requires |head| == 4 && |tail| >= 4
    requires DecodeBlock(head) == Some(h) && Decode(tail) == Some(t)
    ensures Decode(head + tail) == Some(h + t)
  {
    var s := head + tail;
    assert s[..4] == head && s[4..] == tail;
  }

  /** A single quartet decodes as a closing one. */
  lemma DecodeQuartet(q: string)
    requires |q| == 4
    ensures Decode(q) == DecodeLast(q)
  {
  }

  /** The encoding of at most three bytes is one closing quartet. */
  lemma EncodeShort(b: seq<Byte>)
    requires 1 <= |b| <= 3
    ensures |b| == 1 ==> Encode(b) == EncodeLastOne(b[0])
    ensures |b| == 2 ==> Encode(b) == EncodeLastTwo(b[0], b[1])
    ensures |b| == 3 ==> Encode(b) == EncodeBlock(b[0], b[1], b[2])
  {
    if |b| == 3 {
      assert b[3..] == [];
      assert EncodeBlock(b[0], b[1], b[2]) + [] == EncodeBlock(b[0], b[1], b[2]);
    }
  }

  lemma ShortDisplay(b: seq<Byte>)
    requires 1 <= |b| <= 3
    ensures |b| == 1 ==> b == [b[0]]
    ensures |b| == 2 ==> b == [b[0], b[1]]
    ensures |b| == 3 ==> b == [b[0], b[1], b[2]]
  {
  }

  /** Decoding the encoding of at most three bytes gives them back. */
  lemma DecodeEncodeShort(b: seq<Byte>)
    requires |b| <= 3
    ensures Decode(Encode(b)) == Some(b)
  {
    if |b| == 0 {
      return;
    }
    EncodeShort(b);
    ShortDisplay(b);
    DecodeQuartet(Encode(b));
    if |b| == 1 {
      DecodeEncodeLast(b[0], 0);
    } else if |b| == 2 {
      DecodeEncodeLast(b[0], b[1]);
    } else {
      DecodeEncodeBlock(b[0], b[1], b[2]);
    }
  }

  /** If the encoding of all but the first three bytes decodes back, so does the encoding of all of them. */
  lemma DecodeEncodeStep(b: seq<Byte>)
    requires |b| > 3
    requires Decode(Encode(b[3..])) == Some(b[3..])
    ensures Decode(Encode(b)) == Some(b)
  {
    DecodeEncodeBlock(b[0], b[1], b[2]);
    DecodePrepend(EncodeBlock(b[0], b[1], b[2]), Encode(b[3..]), [b[0], b[1], b[2]], b[3..]);
    SplitFirstThree(b);
  }

  /** Decoding an encoding gives back the bytes. */
  lemma {:induction false} DecodeEncode(b: seq<Byte>)
    ensures Decode(Encode(b)) == Some(b)
    decreases |b|
  {
    if |b| <= 3 {
      DecodeEncodeShort(b);
    } else {
      DecodeEncode(b[3..]);
      DecodeEncodeStep(b);
    }
  }

  /** The bytes of four sextets split back into the same sextets. */
  lemma SextetArithmetic(v0: int, v1: int, v2: int, v3: int)
    requires 0 <= v0 < 64 && 0 <= v1 < 64 && 0 <= v2 < 64 && 0 <= v3 < 64
    ensures (v0 * 4 + v1 / 16) / 4 == v0
    ensures (v0 * 4 + v1 / 16) % 4 * 16 + (v1 % 16 * 16 + v2 / 4) / 16 == v1
    ensures (v1 % 16 * 16 + v2 / 4) % 16 * 4 + (v2 % 4 * 64 + v3) / 64 == v2
    ensures (v2 % 4 * 64 + v3) % 64 == v3
  {
    DivMod(v0, v1 / 16, 4);
    DivMod(v1 % 16, v2 / 4, 16);
    DivMod(v2 % 4, v3, 64);
  }

  /** Two quartets with the same four characters are equal. */
  lemma SameQuartet(e: string, q: string)
    requires |e| == 4 && |q| == 4
    requires e[0] == q[0] && e[1] == q[1] && e[2] == q[2] && e[3] == q[3]
    ensures e == q
  {
  }

  /** Bytes packed from four sextets encode to those sextets' characters. */
  lemma EncodeOfSextets(v0: int, v1: int, v2: int, v3: int, x0: Byte, x1: Byte, x2: Byte)
    requires 0 <= v0 < 64 && 0 <= v1 < 64 && 0 <= v2 < 64 && 0 <= v3 < 64
    requires x0 == v0 * 4 + v1 / 16 && x1 == v1 % 16 * 16 + v2 / 4 && x2 == v2 % 4 * 64 + v3
    ensures EncodeBlock(x0, x1, x2) == [Sextet(v0), Sextet(v1), Sextet(v2), Sextet(v3)]
  {
    SextetArithmetic(v0, v1, v2, v3);
    assert x0 / 4 == v0 && x0 % 4 * 16 + x1 / 16 == v1;
    assert x1 % 16 * 4 + x2 / 64 == v2 && x2 % 64 == v3;
  }

  lemma EncodeDecodeBlock(q: string, b: seq<Byte>)
    requires |q| == 4 && DecodeBlock(q) == Some(b)
    ensures |b| == 3 && EncodeBlock(b[0], b[1], b[2]) == q
  {
    var v0, v1, v2, v3 := SextetValue(q[0]).value, SextetValue(q[1]).value, SextetValue(q[2]).value, SextetValue(q[3]).value;
    SextetOfSextetValue(q[0]);
    SextetOfSextetValue(q[1]);
    SextetOfSextetValue(q[2]);
    SextetOfSextetValue(q[3]);
    assert |b| == 3 && b[0] == v0 * 4 + v1 / 16 && b[1] == v1 % 16 * 16 + v2 / 4 && b[2] == v2 % 4 * 64 + v3;
    EncodeOfSextets(v0, v1, v2, v3, b[0], b[1], b[2]);
    SameQuartet(EncodeBlock(b[0], b[1], b[2]), q);
  }

  lemma EncodeDecodeLastOne(q: string, b: seq<Byte>)
    requires |q| == 4 && q[2] == Pad && q[3] == Pad && DecodeLast(q) == Some(b)
    ensures |b| == 1 && EncodeLastOne(b[0]) == q
  {
    var v0, v1 := SextetValue(q[0]).value, SextetValue(q[1]).value;
    SextetOfSextetValue(q[0]);
    SextetOfSextetValue(q[1]);
    var x0 := v0 * 4 + v1 / 16;
    assert b == [x0];
    SextetArithmetic(v0, v1, 0, 0);
    assert x0 / 4 == v0 && x0 % 4 * 16 == v1;
    var e := EncodeLastOne(x0);
    assert e[0] == Sextet(v0) == q[0];
    assert e[1] == Sextet(v1) == q[1];
    SameQuartet(e, q);
  }

  lemma EncodeDecodeLastTwo(q: string, b: seq<Byte>)
    requires |q| == 4 && q[2] != Pad && q[3] == Pad && DecodeLast(q) == Some(b)
    ensures |b| == 2 && EncodeLastTwo(b[0], b[1]) == q
  {
    var v0, v1, v2 := SextetValue(q[0]).value, SextetValue(q[1]).value, SextetValue(q[2]).value;
    SextetOfSextetValue(q[0]);
    SextetOfSextetValue(q[1]);
    SextetOfSextetValue(q[2]);
    var x0, x1 := v0 * 4 + v1 / 16, v1 % 16 * 16 + v2 / 4;
    assert b == [x0, x1];
    SextetArithmetic(v0, v1, v2, 0);
    assert x0 / 4 == v0 && x0 % 4 * 16 + x1 / 16 == v1 && x1 % 16 * 4 == v2;
    var e := EncodeLastTwo(x0, x1);
    assert e[0] == Sextet(v0) == q[0];
    assert e[1] == Sextet(v1) == q[1];
    assert e[2] == Sextet(v2) == q[2];
    SameQuartet(e, q);
  }

  lemma EncodeDecodeLast(q: string, b: seq<Byte>)
    requires |q| == 4 && DecodeLast(q) == Some(b)
    ensures 1 <= |b| <= 3
    ensures |b| == 1 ==> EncodeLastOne(b[0]) == q
    ensures |b| == 2 ==> EncodeLastTwo(b[0], b[1]) == q
    ensures |b| == 3 ==> EncodeBlock(b[0], b[1], b[2]) == q
  {
    if q[2] == Pad && q[3] == Pad {
      EncodeDecodeLastOne(q, b);
    } else if q[3] == Pad {
      EncodeDecodeLastTwo(q, b);
    } else {
      EncodeDecodeBlock(q, b);
    }
  }

  /** Whatever decodes was strictly encoded: a decodable text is the encoding of what it decodes to. */
  lemma {:induction false} EncodeDecode(s: string, b: seq<Byte>)
    requires Decode(s) == Some(b)
    ensures Encode(b) == s
    decreases |s|
  {
    if |s| == 4 {
      EncodeDecodeLast(s, b);
    } else if |s| > 4 {
      var head := DecodeBlock(s[..4]).value;
      var tail := Decode(s[4..]).value;
      EncodeDecodeBlock(s[..4], head);
      EncodeDecode(s[4..], tail);
      assert b == head + tail;
      assert b[3..] == tail;
      assert s == s[..4] + s[4..];
    }
  }

  /** Strict base64 is one-to-one: two decodable texts with the same bytes are the same text. */
  lemma DecodeInjective(s: string, t: string)
    requires Decode(s).Some? && Decode(s) == Decode(t)
    ensures s == t
  {
    EncodeDecode(s, Decode(s).value);
    EncodeDecode(t, Decode(t).value);
  }
}

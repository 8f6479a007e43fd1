/**
 * The base-64 codec of crypt_blowfish: its own alphabet, no padding characters, and partial
 * groups of one and two bytes. Bytes are 8-bit vectors.
 */
module Radix64 {
  import opened Prelude

  type Bytes = seq<bv8>

  /** Text as C sees it: reading past the end meets the terminator. */
  function At(s: Bytes, i: nat): bv8 {
    if i < |s| then s[i] else 0
  }

  /** The n characters from i on. */
  function Segment(s: Bytes, i: nat, n: nat): (r: Bytes)
    ensures |r| == n
  {
    seq(n, k requires 0 <= k < n => At(s, i + k))
  }

  lemma SegmentGroup(s: Bytes, i: nat, n: nat)
    requires n >= 4
    ensures Segment(s, i, n) == [At(s, i), At(s, i + 1), At(s, i + 2), At(s, i + 3)] + Segment(s, i + 4, n - 4)
  {
  }

  /** BF_itoa64: "./A-Za-z0-9". */
  function Itoa64(v: bv8): bv8 {
    if v < 2 then 0x2E + v
    else if v < 28 then 0x41 + (v - 2)
    else if v < 54 then 0x61 + (v - 28)
    else if v < 64 then 0x30 + (v - 54)
    else 0
  }

  /** BF_atoi64 behind its range check; 64 marks a character outside the alphabet. */
  function Atoi64(c: bv8): bv8 {
    if 0x2E <= c <= 0x2F then c - 0x2E
    else if 0x30 <= c <= 0x39 then 54 + (c - 0x30)
    else if 0x41 <= c <= 0x5A then 2 + (c - 0x41)
    else if 0x61 <= c <= 0x7A then 28 + (c - 0x61)
    else 64
  }

  /** The characters "./A-Za-z0-9" by value. */
  const ALPHABET: Bytes := [
    0x2E, 0x2F, 0x41, 0x42, 0x43, 0x44, 0x45, 0x46, 0x47, 0x48, 0x49, 0x4A, 0x4B, 0x4C, 0x4D, 0x4E,
    0x4F, 0x50, 0x51, 0x52, 0x53, 0x54, 0x55, 0x56, 0x57, 0x58, 0x59, 0x5A, 0x61, 0x62, 0x63, 0x64,
    0x65, 0x66, 0x67, 0x68, 0x69, 0x6A, 0x6B, 0x6C, 0x6D, 0x6E, 0x6F, 0x70, 0x71, 0x72, 0x73, 0x74,
    0x75, 0x76, 0x77, 0x78, 0x79, 0x7A, 0x30, 0x31, 0x32, 0x33, 0x34, 0x35, 0x36, 0x37, 0x38, 0x39]

  /** The digits by value are the alphabet, character by character. */
  lemma DigitsAreAlphabet()
    ensures [Itoa64(0), Itoa64(1), Itoa64(2), Itoa64(3), Itoa64(4), Itoa64(5), Itoa64(6), Itoa64(7),
             Itoa64(8), Itoa64(9), Itoa64(10), Itoa64(11), Itoa64(12), Itoa64(13), Itoa64(14), Itoa64(15),
             Itoa64(16), Itoa64(17), Itoa64(18), Itoa64(19), Itoa64(20), Itoa64(21), Itoa64(22), Itoa64(23),
             Itoa64(24), Itoa64(25), Itoa64(26), Itoa64(27), Itoa64(28), Itoa64(29), Itoa64(30), Itoa64(31),
             Itoa64(32), Itoa64(33), Itoa64(34), Itoa64(35), Itoa64(36), Itoa64(37), Itoa64(38), Itoa64(39),
             Itoa64(40), Itoa64(41), Itoa64(42), Itoa64(43), Itoa64(44), Itoa64(45), Itoa64(46), Itoa64(47),
             Itoa64(48), Itoa64(49), Itoa64(50), Itoa64(51), Itoa64(52), Itoa64(53), Itoa64(54), Itoa64(55),
             Itoa64(56), Itoa64(57), Itoa64(58), Itoa64(59), Itoa64(60), Itoa64(61), Itoa64(62), Itoa64(63)] == ALPHABET
  {
  }

  predicate IsDigit(c: bv8) {
    Atoi64(c) < 64
  }

  lemma DigitRoundTrip(v: bv8)
    requires v < 64
    ensures Atoi64(Itoa64(v)) == v && IsDigit(Itoa64(v)) && Itoa64(v) != 0
  {
  }

  lemma CharRoundTrip(c: bv8)
    requires IsDigit(c)
    ensures Itoa64(Atoi64(c)) == c && c != 0
  {
  }

  // ---------------------------------------------------------------------------
  // The codec as functions, group by group
  // ---------------------------------------------------------------------------

  /** The sextets of a group, as both directions cut it. */
  function S0(a: bv8): bv8 { a >> 2 }
  function S1(a: bv8, b: bv8): bv8 { ((a & 0x03) << 4) | (b >> 4) }
  function S2(b: bv8, c: bv8): bv8 { ((b & 0x0F) << 2) | (c >> 6) }
  function S3(c: bv8): bv8 { c & 0x3F }

  /** The bytes of a group from its sextets. */
  function B0(s: bv8, t: bv8): bv8 { (s << 2) | ((t & 0x30) >> 4) }
  function B1(t: bv8, u: bv8): bv8 { ((t & 0x0F) << 4) | ((u & 0x3C) >> 2) }
  function B2(u: bv8, v: bv8): bv8 { ((u & 0x03) << 6) | v }

  /** Four digits in base 64 are the three bytes in base 256; one or two bytes are filled up with zero bits. */
  lemma GroupIsNumber(a: bv8, b: bv8, c: bv8)
    ensures (S0(a) as bv32 << 18) | (S1(a, b) as bv32 << 12) | (S2(b, c) as bv32 << 6) | (S3(c) as bv32)
            == (a as bv32 << 16) | (b as bv32 << 8) | (c as bv32)
  {
  }

  function Chars(size: nat): nat {
    size / 3 * 4 + if size % 3 == 0 then 0 else size % 3 + 1
  }

  function Encode(x: Bytes): (t: Bytes)
    ensures |t| == Chars(|x|)
  {
    if |x| == 0 then []
    else if |x| == 1 then [Itoa64(S0(x[0])), Itoa64(S1(x[0], 0))]
    else if |x| == 2 then [Itoa64(S0(x[0])), Itoa64(S1(x[0], x[1])), Itoa64(S2(x[1], 0))]
    else [Itoa64(S0(x[0])), Itoa64(S1(x[0], x[1])), Itoa64(S2(x[1], x[2])), Itoa64(S3(x[2]))] + Encode(x[3..])
  }

  /** The bytes that `size` asks for from the text at i; None at the first bad character. */
  function Decode(t: Bytes, i: nat, size: nat): (r: Option<Bytes>)
    ensures r.Some? ==> |r.value| == size
    decreases size
  {
    if size == 0 then Some([])
    else
      var c1, c2 := Atoi64(At(t, i)), Atoi64(At(t, i + 1));
      if c1 >= 64 || c2 >= 64 then None
      else if size == 1 then Some([B0(c1, c2)])
      else
        var c3 := Atoi64(At(t, i + 2));
        if c3 >= 64 then None
        else if size == 2 then Some([B0(c1, c2), B1(c2, c3)])
        else
          var c4 := Atoi64(At(t, i + 3));
          if c4 >= 64 then None
          else match Decode(t, i + 4, size - 3)
               case None => None
               case Some(rest) => Some([B0(c1, c2), B1(c2, c3), B2(c3, c4)] + rest)
  }

  // ---------------------------------------------------------------------------
  // Round trips
  // ---------------------------------------------------------------------------

  lemma GroupOut(a: bv8, b: bv8, c: bv8)
    ensures S0(a) < 64 && S1(a, b) < 64 && S2(b, c) < 64 && S3(c) < 64
    ensures B0(S0(a), S1(a, b)) == a && B1(S1(a, b), S2(b, c)) == b && B2(S2(b, c), S3(c)) == c
  {
  }

  lemma GroupIn(s: bv8, t: bv8, u: bv8, v: bv8)
    requires s < 64 && t < 64 && u < 64 && v < 64
    ensures S0(B0(s, t)) == s && S1(B0(s, t), B1(t, u)) == t && S2(B1(t, u), B2(u, v)) == u && S3(B2(u, v)) == v
    ensures S1(B0(s, t), 0) == t & 0x30 && S2(B1(t, u), 0) == u & 0x3C
  {
  }

  /** Every encoding consists of alphabet characters. */
  lemma {:induction false} EncodeDigits(x: Bytes)
    ensures forall k :: 0 <= k < |Encode(x)| ==> IsDigit(Encode(x)[k])
    decreases |x|
  {
    var a, b, c := At(x, 0), At(x, 1), At(x, 2);
    GroupOut(a, b, c);
    GroupOut(a, 0, 0);
    GroupOut(a, b, 0);
    if |x| > 3 {
      EncodeDigits(x[3..]);
    }
    forall v: bv8 | v < 64 ensures IsDigit(Itoa64(v)) {
      DigitRoundTrip(v);
    }
  }

  lemma OneIsNumber(a: bv8)
    ensures (S0(a) as bv32 << 6) | (S1(a, 0) as bv32) == (a as bv32) << 4
  {
  }

  lemma TwoAreNumber(a: bv8, b: bv8)
    ensures (S0(a) as bv32 << 12) | (S1(a, b) as bv32 << 6) | (S2(b, 0) as bv32) == ((a as bv32 << 8) | (b as bv32)) << 2
  {
  }

  /** The digits of a text are the sextets of its bytes, group by group, with zero bits after the last byte. */
  lemma EncodeIsSextets(x: Bytes)
    requires x != []
    ensures var t := Encode(x);
            && Atoi64(t[0]) == S0(x[0]) && Atoi64(t[1]) == S1(x[0], At(x, 1))
            && (|x| > 1 ==> Atoi64(t[2]) == S2(x[1], At(x, 2)))
            && (|x| > 2 ==> Atoi64(t[3]) == S3(x[2]) && t[4..] == Encode(x[3..]))
  {
    hide Itoa64, Atoi64, S0, S1, S2, S3;
    var a, b, c := x[0], At(x, 1), At(x, 2);
    GroupOut(a, b, c);
    DigitRoundTrip(S0(a));
    DigitRoundTrip(S1(a, b));
    DigitRoundTrip(S2(b, c));
    DigitRoundTrip(S3(c));
  }

  /** Decoding inverts encoding for any number of bytes, wherever the text stands. */
  lemma {:induction false} DecodeEncode(x: Bytes, t: Bytes, i: nat)
    requires Segment(t, i, Chars(|x|)) == Encode(x)
    ensures Decode(t, i, |x|) == Some(x)
    decreases |x|
  {
    hide Atoi64, Itoa64, B0, B1, B2, S0, S1, S2, S3;
    if |x| > 0 {
      var a, b, c := x[0], At(x, 1), At(x, 2);
      var text := Segment(t, i, Chars(|x|));
      GroupOut(a, b, c);
      DigitRoundTrip(S0(a));
      DigitRoundTrip(S1(a, b));
      DigitRoundTrip(S2(b, c));
      DigitRoundTrip(S3(c));
      assert text[0] == At(t, i) && text[1] == At(t, i + 1);
      if |x| == 1 {
        assert x == [a];
      } else if |x| == 2 {
        assert text[2] == At(t, i + 2);
        assert x == [a, b];
      } else {
        SegmentGroup(t, i, Chars(|x|));
        assert text[2] == At(t, i + 2) && text[3] == At(t, i + 3);
        assert text[4..] == Segment(t, i + 4, Chars(|x[3..]|)) && Encode(x)[4..] == Encode(x[3..]);
        DecodeEncode(x[3..], t, i + 4);
        assert x == [a, b, c] + x[3..];
      }
    }
  }

  /** What the last character keeps: four bits of a partial group of two bytes, two of one byte. */
  function LastMask(size: nat): bv8 {
    if size % 3 == 1 then 0x30 else if size % 3 == 2 then 0x3C else 0x3F
  }

  function Normalised(c: bv8, size: nat): bv8 {
    Itoa64(Atoi64(c) & LastMask(size))
  }

  /** The text as the encoder would write it: the unused bits of its last character are cleared. */
  function Cleaned(t: Bytes, i: nat, size: nat): Bytes
    requires size > 0
  {
    Segment(t, i, Chars(size) - 1) + [Normalised(At(t, i + Chars(size) - 1), size)]
  }

  lemma CleanedGroup(t: Bytes, i: nat, size: nat)
    requires size > 3
    ensures Cleaned(t, i, size) == [At(t, i), At(t, i + 1), At(t, i + 2), At(t, i + 3)] + Cleaned(t, i + 4, size - 3)
  {
    assert Chars(size) == 4 + Chars(size - 3);
    SegmentGroup(t, i, Chars(size) - 1);
  }

  lemma EncodeDecodeOne(t: Bytes, i: nat)
    requires Decode(t, i, 1).Some?
    ensures Encode(Decode(t, i, 1).value) == Cleaned(t, i, 1)
  {
    CharRoundTrip(At(t, i));
    GroupIn(Atoi64(At(t, i)), Atoi64(At(t, i + 1)), 0, 0);
    assert Segment(t, i, 1) == [At(t, i)];
  }

  lemma EncodeDecodeTwo(t: Bytes, i: nat)
    requires Decode(t, i, 2).Some?
    ensures Encode(Decode(t, i, 2).value) == Cleaned(t, i, 2)
  {
    CharRoundTrip(At(t, i));
    CharRoundTrip(At(t, i + 1));
    GroupIn(Atoi64(At(t, i)), Atoi64(At(t, i + 1)), Atoi64(At(t, i + 2)), 0);
    assert Segment(t, i, 2) == [At(t, i), At(t, i + 1)];
  }

  /** The four characters of a full group come back from its three bytes. */
  lemma FullGroup(t: Bytes, i: nat, rest: Bytes)
    requires IsDigit(At(t, i)) && IsDigit(At(t, i + 1)) && IsDigit(At(t, i + 2)) && IsDigit(At(t, i + 3))
    ensures var s, u, v, w := Atoi64(At(t, i)), Atoi64(At(t, i + 1)), Atoi64(At(t, i + 2)), Atoi64(At(t, i + 3));
            Encode([B0(s, u), B1(u, v), B2(v, w)] + rest) ==
            [At(t, i), At(t, i + 1), At(t, i + 2), At(t, i + 3)] + Encode(rest)
  {
    var s, u, v, w := Atoi64(At(t, i)), Atoi64(At(t, i + 1)), Atoi64(At(t, i + 2)), Atoi64(At(t, i + 3));
    CharRoundTrip(At(t, i));
    CharRoundTrip(At(t, i + 1));
    CharRoundTrip(At(t, i + 2));
    CharRoundTrip(At(t, i + 3));
    GroupIn(s, u, v, w);
    assert ([B0(s, u), B1(u, v), B2(v, w)] + rest)[3..] == rest;
  }

  lemma CleanedThree(t: Bytes, i: nat)
    requires IsDigit(At(t, i + 3))
    ensures Cleaned(t, i, 3) == [At(t, i), At(t, i + 1), At(t, i + 2), At(t, i + 3)]
  {
    MaskAll(Atoi64(At(t, i + 3)));
    CharRoundTrip(At(t, i + 3));
  }

  /** Encoding inverts decoding up to the unused bits of the last character, which are cleared. */
  lemma {:induction false} EncodeDecode(t: Bytes, i: nat, size: nat)
    requires size > 0 && Decode(t, i, size).Some?
    ensures Encode(Decode(t, i, size).value) == Cleaned(t, i, size)
    decreases size
  {
    if size == 1 {
      EncodeDecodeOne(t, i);
    } else if size == 2 {
      EncodeDecodeTwo(t, i);
    } else if size == 3 {
      FullGroup(t, i, []);
      CleanedThree(t, i);
    } else {
      FullGroup(t, i, Decode(t, i + 4, size - 3).value);
      EncodeDecode(t, i + 4, size - 3);
      CleanedGroup(t, i, size);
    }
  }

  lemma MaskAll(v: bv8)
    requires v < 64
    ensures v & 0x3F == v
  {
  }

  /** A digit keeps its used bits when it is normalised, and those are all that decoding reads. */
  lemma NormalisedDigit(c: bv8, size: nat, s: bv8)
    requires IsDigit(c)
    ensures Atoi64(Normalised(c, size)) == Atoi64(c) & LastMask(size) && IsDigit(Normalised(c, size))
    ensures size % 3 == 1 ==> B0(s, Atoi64(c) & LastMask(size)) == B0(s, Atoi64(c))
    ensures size % 3 == 2 ==> B1(s, Atoi64(c) & LastMask(size)) == B1(s, Atoi64(c))
    ensures size % 3 == 0 ==> Normalised(c, size) == c
  {
    var v := Atoi64(c);
    MaskedBits(v, s);
    DigitRoundTrip(v & LastMask(size));
    CharRoundTrip(c);
  }

  lemma MaskedBits(v: bv8, s: bv8)
    requires v < 64
    ensures v & 0x30 < 64 && v & 0x3C < 64 && v & 0x3F == v
    ensures B0(s, v & 0x30) == B0(s, v) && B1(s, v & 0x3C) == B1(s, v)
  {
  }

  lemma DecodeIgnoresUnusedBitsLast(t: Bytes, t': Bytes, i: nat, size: nat)
    requires 0 < size <= 3 && IsDigit(At(t, i + Chars(size) - 1))
    requires Segment(t', i, Chars(size)) == Cleaned(t, i, size)
    ensures Decode(t', i, size) == Decode(t, i, size)
  {
    var text, head := Segment(t', i, Chars(size)), Segment(t, i, Chars(size) - 1);
    var last := At(t, i + Chars(size) - 1);
    assert text[0] == At(t', i) && text[1] == At(t', i + 1) && head[0] == At(t, i);
    if size == 1 {
      NormalisedDigit(last, 1, Atoi64(At(t, i)));
    } else {
      assert text[2] == At(t', i + 2) && head[1] == At(t, i + 1);
      NormalisedDigit(last, size, Atoi64(At(t, i + 1)));
      if size == 3 {
        assert text[3] == At(t', i + 3) && head[2] == At(t, i + 2);
      }
    }
  }

  /** Decoding does not see the unused bits: the cleaned text decodes alike. */
  lemma {:induction false} DecodeIgnoresUnusedBits(t: Bytes, t': Bytes, i: nat, size: nat)
    requires size > 0 && IsDigit(At(t, i + Chars(size) - 1))
    requires Segment(t', i, Chars(size)) == Cleaned(t, i, size)
    ensures Decode(t', i, size) == Decode(t, i, size)
    decreases size
  {
    hide Atoi64, Itoa64, B0, B1, B2, Normalised;
    if size <= 3 {
      DecodeIgnoresUnusedBitsLast(t, t', i, size);
    } else {
      var text := Segment(t', i, Chars(size));
      CleanedGroup(t, i, size);
      SegmentGroup(t', i, Chars(size));
      assert text[0] == At(t', i) && text[1] == At(t', i + 1) && text[2] == At(t', i + 2) && text[3] == At(t', i + 3);
      assert text[4..] == Segment(t', i + 4, Chars(size - 3));
      DecodeIgnoresUnusedBits(t, t', i + 4, size - 3);
    }
  }
}

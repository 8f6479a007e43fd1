/**
 * bcrypt as a whole: BF_crypt from setting to hash string, salt generation, and the password
 * functions built on them. The initial tables are a parameter; so is the machine's byte order, on
 * which nothing depends.
 */
module Bcrypt {
  import opened Prelude
  import opened Radix64
  import opened KeySetup
  import opened Blowfish
  import opened Eksblowfish

  // ---------------------------------------------------------------------------
  // Words in memory
  // ---------------------------------------------------------------------------

  /** The word a machine reads from four consecutive bytes. */
  function Native(little: bool, a: bv8, b: bv8, c: bv8, d: bv8): Word {
    if little then BigEndian(d, c, b, a) else BigEndian(a, b, c, d)
  }

  /** The bytes of a word, highest first. */
  function BytesOf(w: Word): (r: Bytes)
    ensures |r| == 4
  {
    [(w >> 24) as bv8, ((w >> 16) & 0xFF) as bv8, ((w >> 8) & 0xFF) as bv8, (w & 0xFF) as bv8]
  }

  /** The bytes of a word as they stand in memory. */
  function Memory(little: bool, w: Word): (r: Bytes)
    ensures |r| == 4
  {
    var x := BytesOf(w);
    if little then [x[3], x[2], x[1], x[0]] else x
  }

  function ByteSwap(x: Word): Word {
    var tmp := (x << 16) | (x >> 16);
    ((tmp & 0x00FF00FF) << 8) | ((tmp >> 8) & 0x00FF00FF)
  }

  /** What BF_swap does to a word. */
  function Swapped(little: bool, x: Word): Word {
    if little then ByteSwap(x) else x
  }

  lemma ByteSwapReverses(a: bv8, b: bv8, c: bv8, d: bv8)
    ensures ByteSwap(BigEndian(d, c, b, a)) == BigEndian(a, b, c, d)
  {
  }

  lemma BytesAreBigEndian(w: Word)
    ensures var x := BytesOf(w); BigEndian(x[0], x[1], x[2], x[3]) == w
  {
  }

  lemma BytesOfBigEndian(a: bv8, b: bv8, c: bv8, d: bv8)
    ensures BytesOf(BigEndian(a, b, c, d)) == [a, b, c, d]
  {
  }

  /** After BF_swap a word read from memory is big-endian, on either kind of machine. */
  lemma SwapReadsBigEndian(little: bool, a: bv8, b: bv8, c: bv8, d: bv8)
    ensures Swapped(little, Native(little, a, b, c, d)) == BigEndian(a, b, c, d)
  {
    hide ByteSwap, BigEndian;
    ByteSwapReverses(a, b, c, d);
  }

  /** After BF_swap a word written to memory stands big-endian, on either kind of machine. */
  lemma SwapWritesBigEndian(little: bool, w: Word)
    ensures Memory(little, Swapped(little, w)) == BytesOf(w)
  {
    hide ByteSwap, BigEndian, BytesOf;
    var x := BytesOf(w);
    BytesAreBigEndian(w);
    ByteSwapReverses(x[3], x[2], x[1], x[0]);
    BytesOfBigEndian(x[3], x[2], x[1], x[0]);
  }

  /** BF_swap, on the first `count` words. */
  method BFSwap(x: array<Word>, count: nat, little: bool)
    requires 0 < count <= x.Length
    modifies x
    ensures forall k :: 0 <= k < count ==> x[k] == Swapped(little, old(x[k]))
    ensures forall k :: count <= k < x.Length ==> x[k] == old(x[k])
  {
    hide ByteSwap;
    if little {
      var i := 0;
      while true
        invariant 0 <= i < count
        invariant forall k :: 0 <= k < i ==> x[k] == ByteSwap(old(x[k]))
        invariant forall k :: i <= k < x.Length ==> x[k] == old(x[k])
        decreases count - i
      {
        x[i] := ByteSwap(x[i]);
        i := i + 1;
        if i == count {
          break;
        }
      }
    }
  }

  // ---------------------------------------------------------------------------
  // Settings and hashes
  // ---------------------------------------------------------------------------

  const DOLLAR: bv8 := 0x24
  const TWO: bv8 := 0x32
  const HASH_SIZE := 61

  /** flags_by_subtype; 0 for a letter that is no subtype and for other characters. */
  function Subtype(c: bv8): bv8 {
    if c == 0x61 then 2 else if c == 0x62 || c == 0x79 then 4 else if c == 0x78 then 1 else 0
  }

  /** The value of a decimal digit; 10 for any other character. */
  function Digit(c: bv8): (d: nat)
    ensures d <= 10
  {
    if c == 0x30 then 0 else if c == 0x31 then 1 else if c == 0x32 then 2 else if c == 0x33 then 3
    else if c == 0x34 then 4 else if c == 0x35 then 5 else if c == 0x36 then 6 else if c == 0x37 then 7
    else if c == 0x38 then 8 else if c == 0x39 then 9 else 10
  }

  function DigitChar(d: nat): (c: bv8)
    requires d < 10
    ensures Digit(c) == d
  {
    [0x30, 0x31, 0x32, 0x33, 0x34, 0x35, 0x36, 0x37, 0x38, 0x39][d]
  }

  function Cost(setting: Bytes): nat {
    Digit(At(setting, 4)) * 10 + Digit(At(setting, 5))
  }

  /** The checks on the seven characters before the salt. */
  predicate PrefixOk(setting: Bytes) {
    && At(setting, 0) == DOLLAR && At(setting, 1) == TWO && Subtype(At(setting, 2)) != 0 && At(setting, 3) == DOLLAR
    && Digit(At(setting, 4)) <= 3 && Digit(At(setting, 5)) <= 9
    && !(Digit(At(setting, 4)) == 3 && Digit(At(setting, 5)) > 1)
    && At(setting, 6) == DOLLAR
  }

  /** When BF_crypt does not return NULL. */
  predicate Accepts(setting: Bytes, size: int, min: nat) {
    && size >= HASH_SIZE
    && PrefixOk(setting)
    && Pow2(Cost(setting)) >= min
    && Decode(setting, 7, 16).Some?
  }

  /** flags_by_subtype: one entry for each letter of the alphabet. */
  const FLAGS_BY_SUBTYPE: Bytes := [2, 4, 0, 0, 0, 0, 0, 0, 0, 0, 0, 0, 0, 0, 0, 0, 0, 0, 0, 0, 0, 0, 0, 1, 4, 0]

  /** The flags are the table's entry for a letter; other characters are no subtype. */
  lemma SubtypeIsTable(c: bv8)
    ensures Subtype(c) == if 97 <= c as int <= 122 then FLAGS_BY_SUBTYPE[c as int - 97] else 0
  {
    var i := c as int - 97;
    if 0 <= i < 26 && i != 0 && i != 1 && i != 23 && i != 24 {
      assert c != 0x61 && c != 0x62 && c != 0x78 && c != 0x79;
      assert FLAGS_BY_SUBTYPE[i] == 0;
    }
  }

  /** The value of a digit by its character; what is no digit is more than any. */
  lemma DigitIs(c: bv8)
    ensures Digit(c) < 10 <==> 0x30 <= c <= 0x39
    ensures Digit(c) < 10 ==> Digit(c) == c as int - 48
  {
  }

  /** The prefix is "$2", a, b, x or y, "$", two digits that form a number up to 31, and "$". */
  lemma PrefixIff(setting: Bytes)
    ensures PrefixOk(setting) <==>
            && At(setting, 0) == 0x24 && At(setting, 1) == 0x32
            && (At(setting, 2) == 0x61 || At(setting, 2) == 0x62 || At(setting, 2) == 0x78 || At(setting, 2) == 0x79)
            && At(setting, 3) == 0x24
            && 0x30 <= At(setting, 4) <= 0x39 && 0x30 <= At(setting, 5) <= 0x39
            && 10 * (At(setting, 4) as int - 48) + (At(setting, 5) as int - 48) <= 31
            && At(setting, 6) == 0x24
    ensures PrefixOk(setting) ==> Cost(setting) == 10 * (At(setting, 4) as int - 48) + (At(setting, 5) as int - 48)
  {
    hide Digit, At;
    DigitIs(At(setting, 4));
    DigitIs(At(setting, 5));
  }

  /** With the minimum of 16 iterations, a setting is accepted exactly for a cost from 4 and a salt that decodes. */
  lemma AcceptsIff(setting: Bytes)
    ensures Accepts(setting, HASH_SIZE, 16) <==>
            PrefixOk(setting) && Cost(setting) >= 4 && Decode(setting, 7, 16).Some?
  {
    hide PrefixOk, Decode, Cost;
    assert Pow2(4) == 16 && Pow2(3) == 8;
    if Cost(setting) >= 4 {
      Pow2Bound(4, Cost(setting));
    } else {
      Pow2Bound(Cost(setting), 3);
    }
  }

  function SaltWords(salt: Bytes): (r: Words)
    requires |salt| == 16
    ensures |r| == 4
  {
    seq(4, i requires 0 <= i < 4 => BigEndian(salt[4 * i], salt[4 * i + 1], salt[4 * i + 2], salt[4 * i + 3]))
  }

  function OutputBytes(out: Words): (r: Bytes)
    requires |out| == 6
    ensures |r| == 24
  {
    BytesOf(out[0]) + BytesOf(out[1]) + BytesOf(out[2]) + BytesOf(out[3]) + BytesOf(out[4]) + BytesOf(out[5])
  }

  lemma MagicBytes()
    ensures BytesOf(0x4F727068) == [0x4F, 0x72, 0x70, 0x68] && BytesOf(0x65616E42) == [0x65, 0x61, 0x6E, 0x42]
    ensures BytesOf(0x65686F6C) == [0x65, 0x68, 0x6F, 0x6C] && BytesOf(0x64657253) == [0x64, 0x65, 0x72, 0x53]
    ensures BytesOf(0x63727944) == [0x63, 0x72, 0x79, 0x44] && BytesOf(0x6F756274) == [0x6F, 0x75, 0x62, 0x74]
  {
  }

  /** The words that are encrypted spell out the scheme's magic text, "OrpheanBeholderScryDoubt". */
  lemma MagicSpells()
    ensures OutputBytes(MAGIC) ==
            [0x4F, 0x72, 0x70, 0x68, 0x65, 0x61, 0x6E, 0x42, 0x65, 0x68, 0x6F, 0x6C,
             0x64, 0x65, 0x72, 0x53, 0x63, 0x72, 0x79, 0x44, 0x6F, 0x75, 0x62, 0x74]
  {
    hide BytesOf;
    MagicBytes();
  }

  /** The 24 bytes that bcrypt computes from the password, flags, cost and salt. */
  ghost function Raw(init: Words, key: Bytes, flags: bv8, cost: nat, salt: Bytes): (r: Bytes)
    requires |init| == CTX_WORDS && |salt| == 16
    ensures |r| == 24
  {
    var w := InitialP(init[..P_WORDS], key, flags) + init[P_WORDS..];
    OutputBytes(Ciphertext(Setup(w, SaltWords(salt), Expanded(key, flags), cost)))
  }

  /** Raw bytes by their history: key arrays, a set-up of the tables, and the three magic blocks enciphered 64 times. */
  ghost predicate RawHistory(init: Words, key: Bytes, flags: bv8, cost: nat, salt: Bytes, raw: Bytes,
                             expanded: Words, initial: Words, w: Words, out: Words)
    requires |init| == 1042 && |salt| == 16
  {
    && KeyArrays(key, flags, init[..18], expanded, initial)
    && |w| == 1042 && |out| == 6
    && SetsUp(initial + init[18..], SaltWords(salt), expanded, cost, w)
    && Repeats(w, Block(0x4F727068, 0x65616E42), Block(out[0], out[1]))
    && Repeats(w, Block(0x65686F6C, 0x64657253), Block(out[2], out[3]))
    && Repeats(w, Block(0x63727944, 0x6F756274), Block(out[4], out[5]))
    && raw == OutputBytes(out)
  }

  ghost predicate IsRaw(init: Words, key: Bytes, flags: bv8, cost: nat, salt: Bytes, raw: Bytes)
    requires |init| == 1042 && |salt| == 16
  {
    exists expanded, initial, w, out :: RawHistory(init, key, flags, cost, salt, raw, expanded, initial, w, out)
  }

  lemma CiphertextIff(w: Words, out: Words)
    requires |w| == CTX_WORDS && |out| == 6
    ensures out == Ciphertext(w) <==>
            && Repeats(w, Block(0x4F727068, 0x65616E42), Block(out[0], out[1]))
            && Repeats(w, Block(0x65686F6C, 0x64657253), Block(out[2], out[3]))
            && Repeats(w, Block(0x63727944, 0x6F756274), Block(out[4], out[5]))
  {
    hide Repeats, Times;
    RepeatsIff(w, Block(MAGIC[0], MAGIC[1]), Block(out[0], out[1]));
    RepeatsIff(w, Block(MAGIC[2], MAGIC[3]), Block(out[2], out[3]));
    RepeatsIff(w, Block(MAGIC[4], MAGIC[5]), Block(out[4], out[5]));
  }

  /** The raw bytes are the only ones with such a history. */
  lemma RawIff(init: Words, key: Bytes, flags: bv8, cost: nat, salt: Bytes, raw: Bytes)
    requires |init| == CTX_WORDS && |salt| == 16
    ensures IsRaw(init, key, flags, cost, salt, raw) <==> raw == Raw(init, key, flags, cost, salt)
  {
    hide KeyArrays, SetsUp, Repeats, Setup, Ciphertext, Expanded, InitialP, SaltWords, OutputBytes;
    var expanded, initial := Expanded(key, flags), InitialP(init[..P_WORDS], key, flags);
    var w := Setup(initial + init[P_WORDS..], SaltWords(salt), expanded, cost);
    var out := Ciphertext(w);
    KeyArraysIff(key, flags, init[..P_WORDS], expanded, initial);
    SetsUpIff(initial + init[P_WORDS..], SaltWords(salt), expanded, cost, w);
    CiphertextIff(w, out);
    assert raw == OutputBytes(out) ==> RawHistory(init, key, flags, cost, salt, raw, expanded, initial, w, out);
    if IsRaw(init, key, flags, cost, salt, raw) {
      var e, i, x, o :| RawHistory(init, key, flags, cost, salt, raw, e, i, x, o);
      HistoryIsRaw(init, key, flags, cost, salt, raw, e, i, x, o);
    }
  }

  lemma HistoryIsRaw(init: Words, key: Bytes, flags: bv8, cost: nat, salt: Bytes, raw: Bytes,
                     expanded: Words, initial: Words, w: Words, out: Words)
    requires |init| == CTX_WORDS && |salt| == 16
    requires RawHistory(init, key, flags, cost, salt, raw, expanded, initial, w, out)
    ensures raw == Raw(init, key, flags, cost, salt)
  {
    hide KeyArrays, SetsUp, Repeats, Setup, Ciphertext, Expanded, InitialP, SaltWords, OutputBytes;
    KeyArraysIff(key, flags, init[..P_WORDS], expanded, initial);
    SetsUpIff(initial + init[P_WORDS..], SaltWords(salt), expanded, cost, w);
    CiphertextIff(w, out);
  }

  /** The salt words are the salt bytes, four by four, highest first. */
  lemma SaltWordsHold(salt: Bytes)
    requires |salt| == 16
    ensures var w := SaltWords(salt); BytesOf(w[0]) + BytesOf(w[1]) + BytesOf(w[2]) + BytesOf(w[3]) == salt
  {
    hide BytesOf, BigEndian;
    BytesOfBigEndian(salt[0], salt[1], salt[2], salt[3]);
    BytesOfBigEndian(salt[4], salt[5], salt[6], salt[7]);
    BytesOfBigEndian(salt[8], salt[9], salt[10], salt[11]);
    BytesOfBigEndian(salt[12], salt[13], salt[14], salt[15]);
  }

  /** The hash string: the setting with a normalised last salt character, and 23 bytes encoded. */
  ghost function Hash(init: Words, key: Bytes, setting: Bytes): (r: Bytes)
    requires |init| == CTX_WORDS && Decode(setting, 7, 16).Some?
    ensures |r| == 60
  {
    Segment(setting, 0, 28) + [Normalised(At(setting, 28), 16)]
    + Encode(Raw(init, key, Subtype(At(setting, 2)), Cost(setting), Decode(setting, 7, 16).value)[..23])
  }

  // ---------------------------------------------------------------------------
  // Hashing with an earlier hash as the setting
  // ---------------------------------------------------------------------------

  lemma {:induction false} DecodedDigit(t: Bytes, i: nat, size: nat)
    requires size > 0 && Decode(t, i, size).Some?
    ensures IsDigit(At(t, i + Chars(size) - 1))
    decreases size
  {
    if size > 3 {
      DecodedDigit(t, i + 4, size - 3);
    }
  }

  lemma HashKeepsSetting(init: Words, key: Bytes, setting: Bytes)
    requires |init| == CTX_WORDS && Decode(setting, 7, 16).Some?
    ensures var h := Hash(init, key, setting);
            && (forall i :: 0 <= i < 28 ==> At(h, i) == At(setting, i))
            && At(h, 28) == Normalised(At(setting, 28), 16)
            && Segment(h, 0, 28) == Segment(setting, 0, 28)
            && Segment(h, 7, 22) == Cleaned(setting, 7, 16)
  {
    hide Raw, Encode, Decode, Normalised;
    var h := Hash(init, key, setting);
    forall i | 0 <= i < 28 ensures At(h, i) == At(setting, i) {
      assert h[i] == Segment(setting, 0, 28)[i];
    }
    assert Segment(h, 7, 22) == Segment(setting, 7, 21) + [Normalised(At(setting, 28), 16)];
  }

  lemma NormalisedTwice(c: bv8)
    requires IsDigit(c)
    ensures Normalised(Normalised(c, 16), 16) == Normalised(c, 16)
  {
    hide Itoa64, Atoi64;
    NormalisedDigit(c, 16, 0);
    MaskTwice(Atoi64(c));
  }

  lemma MaskTwice(v: bv8)
    ensures (v & 0x30) & 0x30 == v & 0x30
  {
  }

  /**
   * Hashing again with a hash as the setting reproduces that hash, for every key and every accepted
   * setting: the normalised last salt character decodes to the same salt.
   */
  lemma HashReproduces(init: Words, key: Bytes, setting: Bytes, size: int, min: nat)
    requires |init| == CTX_WORDS && Accepts(setting, size, min)
    ensures Accepts(Hash(init, key, setting), size, min)
    ensures Hash(init, key, Hash(init, key, setting)) == Hash(init, key, setting)
  {
    hide Raw, Encode, Decode, Normalised, Segment, Cleaned, Subtype, Digit, Pow2;
    var h := Hash(init, key, setting);
    HashKeepsSetting(init, key, setting);
    DecodedDigit(setting, 7, 16);
    DecodeIgnoresUnusedBits(setting, h, 7, 16);
    NormalisedTwice(At(setting, 28));
  }

  /** The last 31 characters of a hash decode to the first 23 raw bytes of the key and the setting's flags, cost and salt. */
  lemma HashCarries(init: Words, key: Bytes, setting: Bytes)
    requires |init| == CTX_WORDS && Decode(setting, 7, 16).Some?
    ensures exists raw :: |raw| == 24 && Decode(Hash(init, key, setting), 29, 23) == Some(raw[..23])
                          && IsRaw(init, key, Subtype(At(setting, 2)), Cost(setting), Decode(setting, 7, 16).value, raw)
  {
    hide Raw, Encode, Decode, Normalised, IsRaw;
    var h := Hash(init, key, setting);
    var raw := Raw(init, key, Subtype(At(setting, 2)), Cost(setting), Decode(setting, 7, 16).value);
    RawIff(init, key, Subtype(At(setting, 2)), Cost(setting), Decode(setting, 7, 16).value, raw);
    assert Chars(23) == 31;
    assert Segment(h, 29, 31) == Encode(raw[..23]);
    DecodeEncode(raw[..23], h, 29);
  }

  // ---------------------------------------------------------------------------
  // Salt generation
  // ---------------------------------------------------------------------------

  /** _crypt_gensalt_blowfish_rn: a setting from a prefix, a cost and 16 random bytes, or nothing. */
  function GenSalt(prefix: Bytes, count: nat, input: Bytes, outputSize: int): (r: Option<Bytes>)
    ensures r.Some? ==> |r.value| == 29
  {
    if |input| < 16 || outputSize < 30 || (count != 0 && (count < 4 || count > 31))
       || At(prefix, 0) != DOLLAR || At(prefix, 1) != TWO
       || (At(prefix, 2) != 0x61 && At(prefix, 2) != 0x62 && At(prefix, 2) != 0x79) then None
    else
      Some(SettingPrefix(At(prefix, 2), if count == 0 then 5 else count) + Encode(input[..16]))
  }

  /** When a setting is generated: enough random bytes and room, a cost from 4 to 31 or the default, and "$2a", "$2b" or "$2y". */
  lemma GenSaltIff(prefix: Bytes, count: nat, input: Bytes, outputSize: int)
    ensures GenSalt(prefix, count, input, outputSize).Some? <==>
            && |input| >= 16 && outputSize >= 30 && (count == 0 || 4 <= count <= 31)
            && At(prefix, 0) == 0x24 && At(prefix, 1) == 0x32
            && (At(prefix, 2) == 0x61 || At(prefix, 2) == 0x62 || At(prefix, 2) == 0x79)
  {
    hide At, SettingPrefix, Encode;
  }

  function SettingPrefix(subtype: bv8, cost: nat): (r: Bytes)
    requires cost < 100
    ensures |r| == 7
  {
    [DOLLAR, TWO, subtype, DOLLAR, DigitChar(cost / 10), DigitChar(cost % 10), DOLLAR]
  }

  /** A generated setting is always accepted, carries the given bytes and cost, and is kept verbatim. */
  lemma GeneratedIsAccepted(init: Words, key: Bytes, prefix: Bytes, count: nat, input: Bytes, outputSize: int,
                            size: int, min: nat)
    requires |init| == CTX_WORDS && size >= HASH_SIZE && min <= 16
    requires GenSalt(prefix, count, input, outputSize).Some?
    ensures var t := GenSalt(prefix, count, input, outputSize).value;
            && Accepts(t, size, min)
            && Decode(t, 7, 16) == Some(input[..16])
            && Cost(t) == (if count == 0 then 5 else count)
            && Hash(init, key, t)[..29] == t
  {
    var t := GenSalt(prefix, count, input, outputSize).value;
    GeneratedDecodes(prefix, count, input, outputSize);
    GeneratedPrefix(prefix, count, input, outputSize);
    Pow2Bound(4, Cost(t));
    assert Pow2(4) == 16;
    GeneratedIsVerbatim(init, key, t);
  }

  lemma GeneratedDecodes(prefix: Bytes, count: nat, input: Bytes, outputSize: int)
    requires GenSalt(prefix, count, input, outputSize).Some?
    ensures var t := GenSalt(prefix, count, input, outputSize).value;
            Segment(t, 7, 22) == Encode(input[..16]) && Decode(t, 7, 16) == Some(input[..16])
  {
    hide Decode, Encode;
    var t := GenSalt(prefix, count, input, outputSize).value;
    assert Segment(t, 7, 22) == Encode(input[..16]);
    DecodeEncode(input[..16], t, 7);
  }

  lemma GeneratedPrefix(prefix: Bytes, count: nat, input: Bytes, outputSize: int)
    requires GenSalt(prefix, count, input, outputSize).Some?
    ensures var t := GenSalt(prefix, count, input, outputSize).value;
            PrefixOk(t) && Cost(t) == if count == 0 then 5 else count
  {
    hide Encode;
  }

  /** Encoded bytes have no unused bits set, so normalising changes nothing. */
  lemma GeneratedIsVerbatim(init: Words, key: Bytes, t: Bytes)
    requires |init| == CTX_WORDS && |t| == 29
    requires Decode(t, 7, 16).Some? && Segment(t, 7, 22) == Encode(Decode(t, 7, 16).value)
    ensures Hash(init, key, t)[..29] == t
  {
    hide Raw, Encode, Decode, Normalised;
    EncodeDecode(t, 7, 16);
    assert Segment(t, 7, 22)[21] == At(t, 28) == t[28];
    assert Cleaned(t, 7, 16)[21] == Normalised(At(t, 28), 16);
    assert Segment(t, 0, 28) == t[..28];
  }

  // ---------------------------------------------------------------------------
  // Passwords
  // ---------------------------------------------------------------------------

  /** _crypt_output_magic: what crypt_r leaves for a setting it rejects; never the setting itself. */
  function Magic(setting: Bytes): (r: Bytes)
    ensures r != setting
  {
    if At(setting, 0) == 0x2A && At(setting, 1) == 0x30 then [0x2A, 0x31] else [0x2A, 0x30]
  }

  /** crypt_r with the 61-byte buffer and the minimum of 16 iterations. */
  ghost function CryptR(init: Words, key: Bytes, setting: Bytes): Bytes
    requires |init| == CTX_WORDS
  {
    if Accepts(setting, HASH_SIZE, 16) then Hash(init, key, setting) else Magic(setting)
  }

  /** encrypt_password, given the 24 random characters. */
  ghost function EncryptPassword(init: Words, password: Bytes, random: Bytes): Bytes
    requires |init| == CTX_WORDS && |random| == 24
  {
    CryptR(init, password, GenSalt([DOLLAR, TWO, 0x62, DOLLAR], 11, random, HASH_SIZE).value)
  }

  /** match_password. */
  ghost predicate MatchPassword(init: Words, password: Bytes, encrypted: Bytes)
    requires |init| == CTX_WORDS
  {
    CryptR(init, password, encrypted) == encrypted
  }

  /** A stored string matches exactly when it is an accepted setting that hashes to itself. */
  lemma MatchIff(init: Words, password: Bytes, encrypted: Bytes)
    requires |init| == CTX_WORDS
    ensures MatchPassword(init, password, encrypted) <==>
            Accepts(encrypted, HASH_SIZE, 16) && Hash(init, password, encrypted) == encrypted
  {
    hide Hash, Accepts;
  }

  /** match_password accepts what encrypt_password produced, for all passwords and random salts. */
  lemma EncryptedMatches(init: Words, password: Bytes, random: Bytes)
    requires |init| == CTX_WORDS && |random| == 24
    ensures MatchPassword(init, password, EncryptPassword(init, password, random))
  {
    hide Hash, Accepts;
    GeneratedIsAccepted(init, password, [DOLLAR, TWO, 0x62, DOLLAR], 11, random, HASH_SIZE, HASH_SIZE, 16);
    HashReproduces(init, password, GenSalt([DOLLAR, TWO, 0x62, DOLLAR], 11, random, HASH_SIZE).value, HASH_SIZE, 16);
  }

  /** encrypt_password stores "$2b$11$", the first 16 random characters encoded, and the hash of the password with them. */
  lemma EncryptedForm(init: Words, password: Bytes, random: Bytes)
    requires |init| == CTX_WORDS && |random| == 24
    ensures var e := EncryptPassword(init, password, random);
            && |e| == 60 && e[..7] == [0x24, 0x32, 0x62, 0x24, 0x31, 0x31, 0x24]
            && e[7..29] == Encode(random[..16])
            && exists raw :: |raw| == 24 && Decode(e, 29, 23) == Some(raw[..23])
                             && IsRaw(init, password, 4, 11, random[..16], raw)
  {
    hide Raw, Decode, Hash, IsRaw, Encode, Accepts;
    var prefix := [DOLLAR, TWO, 0x62, DOLLAR];
    var t := GenSalt(prefix, 11, random, HASH_SIZE).value;
    GeneratedIsAccepted(init, password, prefix, 11, random, HASH_SIZE, HASH_SIZE, 16);
    HashCarries(init, password, t);
    assert t[..7] == SettingPrefix(0x62, 11) && t[7..29] == Encode(random[..16]);
    var h := Hash(init, password, t);
    assert h[..7] == h[..29][..7] && h[7..29] == h[..29][7..];
    PrefixElevenIs();
    assert At(t, 2) == SettingPrefix(0x62, 11)[2];
  }

  lemma PrefixElevenIs()
    ensures SettingPrefix(0x62, 11) == [0x24, 0x32, 0x62, 0x24, 0x31, 0x31, 0x24]
    ensures Subtype(0x62) == 4
  {
    assert DigitChar(1) == 0x31;
  }
}

/** BF_crypt and salt generation on buffers, proved to compute the functions of module Bcrypt. */
module BcryptLoops {
  import opened Prelude
  import opened Radix64
  import opened Radix64Loops
  import opened KeySetup
  import opened Blowfish
  import opened Eksblowfish
  import opened Bcrypt

  /** The salt bytes read as words and put into big-endian form. */
  method LoadSalt(bytes: Bytes, little: bool) returns (salt: array<Word>)
    requires |bytes| == 16
    ensures fresh(salt) && salt.Length == 4 && salt[..] == SaltWords(bytes)
  {
    hide Native, Swapped, BigEndian;
    salt := new Word[4];
    salt[0] := Native(little, bytes[0], bytes[1], bytes[2], bytes[3]);
    salt[1] := Native(little, bytes[4], bytes[5], bytes[6], bytes[7]);
    salt[2] := Native(little, bytes[8], bytes[9], bytes[10], bytes[11]);
    salt[3] := Native(little, bytes[12], bytes[13], bytes[14], bytes[15]);
    BFSwap(salt, 4, little);
    SwapReadsBigEndian(little, bytes[0], bytes[1], bytes[2], bytes[3]);
    SwapReadsBigEndian(little, bytes[4], bytes[5], bytes[6], bytes[7]);
    SwapReadsBigEndian(little, bytes[8], bytes[9], bytes[10], bytes[11]);
    SwapReadsBigEndian(little, bytes[12], bytes[13], bytes[14], bytes[15]);
  }

  /** The output words put into big-endian form and read as bytes. */
  method StoreOutput(out: array<Word>, little: bool) returns (bytes: Bytes)
    requires out.Length == 6
    modifies out
    ensures bytes == OutputBytes(old(out[..]))
  {
    hide Memory, Swapped, BytesOf;
    ghost var w := out[..];
    BFSwap(out, 6, little);
    SwapWritesBigEndian(little, w[0]);
    SwapWritesBigEndian(little, w[1]);
    SwapWritesBigEndian(little, w[2]);
    SwapWritesBigEndian(little, w[3]);
    SwapWritesBigEndian(little, w[4]);
    SwapWritesBigEndian(little, w[5]);
    bytes := Memory(little, out[0]) + Memory(little, out[1]) + Memory(little, out[2])
             + Memory(little, out[3]) + Memory(little, out[4]) + Memory(little, out[5]);
  }

  /** From the password and the decoded salt to the 24 output bytes. */
  method ComputeRaw(init: Words, key: CString, flags: bv8, cost: nat, saltBytes: Bytes, little: bool)
    returns (bytes: Bytes)
    requires |init| == CTX_WORDS && |saltBytes| == 16 && cost <= 31
    ensures IsRaw(init, key, flags, cost, saltBytes, bytes)
    ensures bytes == Raw(init, key, flags, cost, saltBytes)
  {
    hide IsRaw, KeyArrays, SetsUp, Repeats, Setup, Ciphertext, Expanded, InitialP, SaltWords, OutputBytes;
    var salt := LoadSalt(saltBytes, little);
    var c := new Ctx(init[P_WORDS..]);
    var expanded := new Word[18];
    var out := new Word[6];
    assert c.P.Length == 18;
    BFSetKey(key, expanded, c.P, init[..P_WORDS], flags);
    assert c.Words() == InitialP(init[..P_WORDS], key, flags) + init[P_WORDS..];
    RunSchedule(c, salt[..], expanded, cost);
    MagicOutput(c, out);
    bytes := StoreOutput(out, little);
    RawIff(init, key, flags, cost, saltBytes, bytes);
  }

  /** Encoded bytes and a terminator, appended to the first `at` characters. */
  method EncodeAndEnd(output: array<bv8>, at: nat, bytes: Bytes, size: nat)
    requires 0 < size <= |bytes| && at + Chars(size) < output.Length
    modifies output
    ensures output[..at + Chars(size) + 1] == old(output[..at]) + Encode(bytes[..size]) + [0]
    ensures output[at + Chars(size) + 1..] == old(output[at + Chars(size) + 1..])
  {
    hide Encode, Chars;
    var end := at + Chars(size);
    ghost var before, text := output[..], Encode(bytes[..size]);
    BFEncode(output, at, bytes, size);
    output[end] := 0;
    assert output[..] == Patched(before, at, text)[end := 0];
    assert Patched(before, at, text)[end := 0] == before[..at] + text + [0] + before[end + 1..];
  }

  /** The output string: setting, normalised salt character, encoded bytes, terminator. */
  method WriteHash(output: array<bv8>, setting: Bytes, bytes: Bytes)
    requires output.Length >= HASH_SIZE && |bytes| == 24
    modifies output
    ensures output[..HASH_SIZE] ==
            Segment(setting, 0, 28) + [Normalised(At(setting, 28), 16)] + Encode(bytes[..23]) + [0]
    ensures output[HASH_SIZE..] == old(output[HASH_SIZE..])
  {
    hide Encode, Normalised, At;
    forall i | 0 <= i < 28 {
      output[i] := At(setting, i);
    }
    output[28] := Normalised(At(setting, 28), 16);
    assert output[..29] == Segment(setting, 0, 28) + [Normalised(At(setting, 28), 16)];
    assert Chars(23) == 31;
    EncodeAndEnd(output, 29, bytes, 23);
  }

  /** BF_crypt: the hash string in the buffer, or nothing written and failure for a bad setting. */
  method BFCrypt(init: Words, key: CString, setting: Bytes, output: array<bv8>, size: int, min: nat, little: bool)
    returns (ok: bool)
    requires |init| == CTX_WORDS && size <= output.Length
    modifies output
    ensures ok <==> Accepts(setting, size, min)
    ensures ok ==> output[..HASH_SIZE] == Hash(init, key, setting) + [0] && output[HASH_SIZE..] == old(output[HASH_SIZE..])
    ensures !ok ==> output[..] == old(output[..])
  {
    hide Raw, Encode, Decode, Normalised, Segment, Digit, Subtype, At, Pow2;
    if size < HASH_SIZE {
      return false;
    }
    if !PrefixOk(setting) {
      return false;
    }
    var count := Pow2(Cost(setting));
    if count < min {
      return false;
    }
    var salt := new bv8[16];
    var ret := BFDecode(salt, setting, 7, 16);
    if ret != 0 {
      return false;
    }
    assert salt[..] == Decode(setting, 7, 16).value;
    var bytes := ComputeRaw(init, key, Subtype(At(setting, 2)), Cost(setting), salt[..], little);
    WriteHash(output, setting, bytes);
    return true;
  }

  /** _crypt_gensalt_blowfish_rn: the setting and a terminator in the buffer, or an empty string. */
  method BFGenSalt(prefix: Bytes, count: nat, input: Bytes, output: array<bv8>, outputSize: int) returns (ok: bool)
    requires 0 <= outputSize <= output.Length
    modifies output
    ensures ok <==> GenSalt(prefix, count, input, outputSize).Some?
    ensures ok ==> output[..30] == GenSalt(prefix, count, input, outputSize).value + [0] && output[30..] == old(output[30..])
    ensures !ok && outputSize > 0 ==> output[0] == 0
  {
    hide Encode, At, SettingPrefix;
    if |input| < 16 || outputSize < 30 || (count != 0 && (count < 4 || count > 31))
       || At(prefix, 0) != DOLLAR || At(prefix, 1) != TWO
       || (At(prefix, 2) != 0x61 && At(prefix, 2) != 0x62 && At(prefix, 2) != 0x79)
    {
      if outputSize > 0 { output[0] := 0; }
      return false;
    }
    var cost := if count == 0 then 5 else count;
    WritePrefix(output, At(prefix, 2), cost);
    assert Chars(16) == 22;
    EncodeAndEnd(output, 7, input, 16);
    return true;
  }

  method WritePrefix(output: array<bv8>, subtype: bv8, cost: nat)
    requires output.Length >= 7 && cost < 100
    modifies output
    ensures output[..7] == SettingPrefix(subtype, cost) && output[7..] == old(output[7..])
  {
    hide DigitChar;
    output[0] := DOLLAR;
    output[1] := TWO;
    output[2] := subtype;
    output[3] := DOLLAR;
    output[4] := DigitChar(cost / 10);
    output[5] := DigitChar(cost % 10);
    output[6] := DOLLAR;
    assert output[..7] == SettingPrefix(subtype, cost);
  }
}

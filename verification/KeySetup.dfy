/**
 * BF_set_key: a password of any length is cycled into 18 words, in a correct and in a historic
 * sign-extending form, and the safety measure against collisions between the two is applied
 * without branches.
 */
module KeySetup {
  import opened Radix64

  type Word = bv32
  type Words = seq<bv32>

  /** A C string: no terminator inside. */
  type CString = s: Bytes | forall i :: 0 <= i < |s| ==> s[i] != 0 witness []

  // ---------------------------------------------------------------------------
  // What the expansion means
  // ---------------------------------------------------------------------------

  /** Byte k of the expanded key: the password and its terminator, repeated. */
  function KeyByte(key: Bytes, k: nat): bv8 {
    (key + [0])[k % (|key| + 1)]
  }

  function BigEndian(a: bv8, b: bv8, c: bv8, d: bv8): Word {
    (a as Word << 24) | (b as Word << 16) | (c as Word << 8) | (d as Word)
  }

  function SignExtend(b: bv8): Word {
    if b >= 0x80 then 0xFFFFFF00 | (b as Word) else b as Word
  }

  /** One byte, possibly sign-extended, shifted into a word from the right. */
  function ShiftIn(t: Word, b: Word): Word {
    (t << 8) | b
  }

  /** The historic form: each byte is sign-extended before it is or-ed in. */
  function SignExtending(a: bv8, b: bv8, c: bv8, d: bv8): Word {
    ShiftIn(ShiftIn(ShiftIn(ShiftIn(0, SignExtend(a)), SignExtend(b)), SignExtend(c)), SignExtend(d))
  }

  /** The two words after j bytes of word i have been shifted in. */
  function PartialCorrect(key: Bytes, i: nat, j: nat): Word {
    if j == 0 then 0 else ShiftIn(PartialCorrect(key, i, j - 1), KeyByte(key, 4 * i + j - 1) as Word)
  }

  function PartialBuggy(key: Bytes, i: nat, j: nat): Word {
    if j == 0 then 0 else ShiftIn(PartialBuggy(key, i, j - 1), SignExtend(KeyByte(key, 4 * i + j - 1)))
  }

  function CorrectWord(key: Bytes, i: nat): Word { PartialCorrect(key, i, 4) }

  function BuggyWord(key: Bytes, i: nat): Word { PartialBuggy(key, i, 4) }

  /** Some byte other than the first of a word has its high bit set. */
  ghost predicate HighByte(key: Bytes, words: nat) {
    exists i :: 0 <= i < words && HighInWord(key, i)
  }

  predicate HighInWord(key: Bytes, i: nat) {
    KeyByte(key, 4 * i + 1) >= 0x80 || KeyByte(key, 4 * i + 2) >= 0x80 || KeyByte(key, 4 * i + 3) >= 0x80
  }

  ghost predicate FormsAgree(key: Bytes, words: nat) {
    forall i :: 0 <= i < words ==> CorrectWord(key, i) == BuggyWord(key, i)
  }

  /** The form of a word that the flags select. */
  function KeyWord(key: Bytes, flags: bv8, i: nat): Word {
    if flags & 1 == 1 then BuggyWord(key, i) else CorrectWord(key, i)
  }

  function Expanded(key: Bytes, flags: bv8): (r: Words)
    ensures |r| == 18
  {
    seq(18, i requires 0 <= i < 18 => KeyWord(key, flags, i))
  }

  function Xor(a: Word, b: Word): Word {
    a ^ b
  }

  /** The safety measure is asked for, and a non-benign sign extension left all words alike. */
  ghost predicate Deviates(key: Bytes, flags: bv8) {
    flags & 2 == 2 && FormsAgree(key, 18) && HighByte(key, 18)
  }

  ghost function InitialP(initP: Words, key: Bytes, flags: bv8): (r: Words)
    requires |initP| == 18
    ensures |r| == 18
  {
    var mixed := seq(18, i requires 0 <= i < 18 => Xor(initP[i], KeyWord(key, flags, i)));
    mixed[0 := Xor(mixed[0], if Deviates(key, flags) then 0x10000 else 0)]
  }

  /** The arrays of a key: the words of the chosen form, and the same mixed into P, with bit 16 of the first one flipped when the measure acts. */
  ghost predicate KeyArrays(key: Bytes, flags: bv8, initP: Words, expanded: Words, initial: Words)
    requires |initP| == 18
  {
    && |expanded| == |initial| == 18
    && (forall k :: 0 <= k < 18 ==> expanded[k] == if flags & 1 == 1 then BuggyWord(key, k) else CorrectWord(key, k))
    && (forall k :: 0 < k < 18 ==> initial[k] == Xor(initP[k], expanded[k]))
    && initial[0] == Xor(Xor(initP[0], expanded[0]), if Deviates(key, flags) then 0x10000 else 0)
  }

  /** The two functions of a key yield the only such arrays. */
  lemma KeyArraysIff(key: Bytes, flags: bv8, initP: Words, expanded: Words, initial: Words)
    requires |initP| == 18
    ensures KeyArrays(key, flags, initP, expanded, initial)
            <==> expanded == Expanded(key, flags) && initial == InitialP(initP, key, flags)
  {
    hide Xor, CorrectWord, BuggyWord, Deviates;
    var flip: Word := if Deviates(key, flags) then 0x10000 else 0;
    assert InitialP(initP, key, flags)[0] == Xor(Xor(initP[0], KeyWord(key, flags, 0)), flip);
    assert forall k :: 0 < k < 18 ==> InitialP(initP, key, flags)[k] == Xor(initP[k], KeyWord(key, flags, k));
  }

  /** A sign-extended byte wipes out everything before it. */
  lemma Wiped(t: Word, b: bv8)
    requires b >= 0x80
    ensures ShiftIn(t, SignExtend(b)) == 0xFFFFFF00 | (b as Word)
  {
  }

  lemma HighFourth(a: bv8, b: bv8, c: bv8, d: bv8)
    requires d >= 0x80
    ensures BigEndian(a, b, c, d) == SignExtending(a, b, c, d) <==> a == 0xFF && b == 0xFF && c == 0xFF
  {
    hide ShiftIn, SignExtend, BigEndian;
    Wiped(ShiftIn(ShiftIn(ShiftIn(0, SignExtend(a)), SignExtend(b)), SignExtend(c)), d);
    OnesBeforeFourth(a, b, c, d);
  }

  lemma OnesBeforeFourth(a: bv8, b: bv8, c: bv8, d: bv8)
    ensures BigEndian(a, b, c, d) == 0xFFFFFF00 | (d as Word) <==> a == 0xFF && b == 0xFF && c == 0xFF
  {
  }

  lemma HighThird(a: bv8, b: bv8, c: bv8, d: bv8)
    requires c >= 0x80 && d < 0x80
    ensures BigEndian(a, b, c, d) == SignExtending(a, b, c, d) <==> a == 0xFF && b == 0xFF
  {
    Low(d);
    hide ShiftIn, SignExtend, BigEndian;
    Wiped(ShiftIn(ShiftIn(0, SignExtend(a)), SignExtend(b)), c);
    OnesBeforeThird(a, b, c, d);
  }

  lemma OnesBeforeThird(a: bv8, b: bv8, c: bv8, d: bv8)
    ensures BigEndian(a, b, c, d) == ShiftIn(0xFFFFFF00 | (c as Word), d as Word) <==> a == 0xFF && b == 0xFF
  {
  }

  lemma HighSecond(a: bv8, b: bv8, c: bv8, d: bv8)
    requires b >= 0x80 && c < 0x80 && d < 0x80
    ensures BigEndian(a, b, c, d) == SignExtending(a, b, c, d) <==> a == 0xFF
  {
    Low(c);
    Low(d);
    hide ShiftIn, SignExtend, BigEndian;
    Wiped(ShiftIn(0, SignExtend(a)), b);
    OnesBeforeSecond(a, b, c, d);
  }

  lemma OnesBeforeSecond(a: bv8, b: bv8, c: bv8, d: bv8)
    ensures BigEndian(a, b, c, d) == ShiftIn(ShiftIn(0xFFFFFF00 | (b as Word), c as Word), d as Word) <==> a == 0xFF
  {
  }

  lemma Low(b: bv8)
    requires b < 0x80
    ensures SignExtend(b) == b as Word
  {
  }

  lemma FirstByteIsBenign(a: bv8, b: bv8, c: bv8, d: bv8)
    requires b < 0x80 && c < 0x80 && d < 0x80
    ensures SignExtending(a, b, c, d) == BigEndian(a, b, c, d)
  {
  }

  /** The two forms of one word agree exactly when each high byte but the first has only 0xFF bytes before it. */
  lemma WordsAgreeIff(a: bv8, b: bv8, c: bv8, d: bv8)
    ensures BigEndian(a, b, c, d) == SignExtending(a, b, c, d) <==>
            && (b >= 0x80 ==> a == 0xFF)
            && (c >= 0x80 ==> a == 0xFF && b == 0xFF)
            && (d >= 0x80 ==> a == 0xFF && b == 0xFF && c == 0xFF)
  {
    hide SignExtending, BigEndian;
    if d >= 0x80 {
      HighFourth(a, b, c, d);
    } else if c >= 0x80 {
      HighThird(a, b, c, d);
    } else if b >= 0x80 {
      HighSecond(a, b, c, d);
    } else {
      FirstByteIsBenign(a, b, c, d);
    }
  }

  /** Bytes below 0x80 expand alike, so plain ASCII passwords are never affected. */
  lemma AsciiNeverDeviates(key: Bytes, flags: bv8)
    requires forall i :: 0 <= i < |key| ==> key[i] < 0x80
    ensures !Deviates(key, flags) && FormsAgree(key, 18)
  {
    forall k: nat ensures KeyByte(key, k) < 0x80 {
      var m := k % (|key| + 1);
      assert m < |key| ==> KeyByte(key, k) == key[m];
    }
    forall i | 0 <= i < 18 ensures CorrectWord(key, i) == BuggyWord(key, i) {
      AgreeIff(key, i);
    }
  }

  lemma ShiftInFour(a: bv8, b: bv8, c: bv8, d: bv8)
    ensures ShiftIn(ShiftIn(ShiftIn(ShiftIn(0, a as Word), b as Word), c as Word), d as Word) == BigEndian(a, b, c, d)
  {
  }

  /** The correct word holds its four bytes in big-endian order. */
  lemma CorrectIsBigEndian(key: Bytes, i: nat)
    ensures CorrectWord(key, i) ==
            BigEndian(KeyByte(key, 4 * i), KeyByte(key, 4 * i + 1), KeyByte(key, 4 * i + 2), KeyByte(key, 4 * i + 3))
  {
    hide ShiftIn, BigEndian, KeyByte;
    ShiftInFour(KeyByte(key, 4 * i), KeyByte(key, 4 * i + 1), KeyByte(key, 4 * i + 2), KeyByte(key, 4 * i + 3));
    assert PartialCorrect(key, i, 1) == ShiftIn(0, KeyByte(key, 4 * i) as Word);
    assert PartialCorrect(key, i, 3) == ShiftIn(PartialCorrect(key, i, 2), KeyByte(key, 4 * i + 2) as Word);
  }

  lemma BuggyIsSignExtending(key: Bytes, i: nat)
    ensures BuggyWord(key, i) ==
            SignExtending(KeyByte(key, 4 * i), KeyByte(key, 4 * i + 1), KeyByte(key, 4 * i + 2), KeyByte(key, 4 * i + 3))
  {
    hide ShiftIn, SignExtend, KeyByte;
    assert PartialBuggy(key, i, 1) == ShiftIn(0, SignExtend(KeyByte(key, 4 * i)));
    assert PartialBuggy(key, i, 3) == ShiftIn(PartialBuggy(key, i, 2), SignExtend(KeyByte(key, 4 * i + 2)));
  }

  /** Every high byte other than a word's first has only 0xFF before it in the word. */
  ghost predicate BenignWord(key: Bytes, i: nat) {
    && (KeyByte(key, 4 * i + 1) >= 0x80 ==> KeyByte(key, 4 * i) == 0xFF)
    && (KeyByte(key, 4 * i + 2) >= 0x80 ==> KeyByte(key, 4 * i) == 0xFF && KeyByte(key, 4 * i + 1) == 0xFF)
    && (KeyByte(key, 4 * i + 3) >= 0x80 ==>
          KeyByte(key, 4 * i) == 0xFF && KeyByte(key, 4 * i + 1) == 0xFF && KeyByte(key, 4 * i + 2) == 0xFF)
  }

  /** The safety measure in terms of the password's bytes alone. */
  lemma DeviatesIff(key: Bytes, flags: bv8)
    ensures Deviates(key, flags) <==>
            flags & 2 == 2 && (forall i :: 0 <= i < 18 ==> BenignWord(key, i)) && (exists i :: 0 <= i < 18 && HighInWord(key, i))
  {
    forall i | 0 <= i < 18 ensures CorrectWord(key, i) == BuggyWord(key, i) <==> BenignWord(key, i) {
      AgreeIff(key, i);
    }
  }

  /**
   * What the measure is for: a key set up with it acting shares its pair of arrays with no key set
   * up without the flag, however that key's words are computed.
   */
  lemma SafetySeparates(initP: Words, k1: Bytes, f1: bv8, k2: Bytes, f2: bv8)
    requires |initP| == 18 && Deviates(k1, f1) && f2 & 2 == 0
    ensures (Expanded(k1, f1), InitialP(initP, k1, f1)) != (Expanded(k2, f2), InitialP(initP, k2, f2))
  {
    hide KeyWord, Deviates, Xor;
    NoFlagNoMeasure(k2, f2);
    if Expanded(k1, f1) == Expanded(k2, f2) {
      assert Expanded(k1, f1)[0] == KeyWord(k1, f1, 0) && Expanded(k2, f2)[0] == KeyWord(k2, f2, 0);
      FlipDiffers(Xor(initP[0], KeyWord(k1, f1, 0)));
      assert InitialP(initP, k1, f1)[0] != InitialP(initP, k2, f2)[0];
    }
  }

  lemma NoFlagNoMeasure(key: Bytes, flags: bv8)
    requires flags & 2 == 0
    ensures !Deviates(key, flags)
  {
  }

  lemma FlipDiffers(w: Word)
    ensures Xor(w, 0x10000) != Xor(w, 0)
  {
  }

  lemma AgreeIff(key: Bytes, i: nat)
    ensures CorrectWord(key, i) == BuggyWord(key, i) <==> BenignWord(key, i)
  {
    hide SignExtending, BigEndian, KeyByte, CorrectWord, BuggyWord;
    CorrectIsBigEndian(key, i);
    BuggyIsSignExtending(key, i);
    WordsAgreeIff(KeyByte(key, 4 * i), KeyByte(key, 4 * i + 1), KeyByte(key, 4 * i + 2), KeyByte(key, 4 * i + 3));
  }

  // ---------------------------------------------------------------------------
  // The loop
  // ---------------------------------------------------------------------------

  /** Where the pointer stands after k bytes: it runs to the terminator and starts over. */
  ghost function Position(n: nat, k: nat): (p: nat)
    ensures p <= n
    ensures p == k % (n + 1)
  {
    if k == 0 then 0
    else
      var p := Position(n, k - 1);
      CycleStep(n, k - 1);
      if p == n then 0 else p + 1
  }

  lemma CycleStep(n: nat, k: nat)
    ensures (k + 1) % (n + 1) == if k % (n + 1) == n then 0 else k % (n + 1) + 1
  {
    var q, r := k / (n + 1), k % (n + 1);
    assert k == q * (n + 1) + r;
    if r == n {
      assert k + 1 == (q + 1) * (n + 1) + 0;
      ModUnique(n + 1, q + 1, 0, k + 1);
    } else {
      ModUnique(n + 1, q, r + 1, k + 1);
    }
  }

  lemma ModUnique(m: nat, q: nat, r: nat, x: nat)
    requires r < m && x == q * m + r
    ensures x % m == r
  {
    MulBound(x / m - q, m);
  }

  lemma MulBound(d: int, m: nat)
    ensures d >= 1 ==> d * m >= m
    ensures d <= -1 ==> d * m + m <= 0
  {
  }

  lemma PositionByte(key: Bytes, k: nat)
    ensures KeyByte(key, k) == if Position(|key|, k) == |key| then 0 else key[Position(|key|, k)]
    ensures Position(|key|, k + 1) == if Position(|key|, k) == |key| then 0 else Position(|key|, k) + 1
  {
  }

  lemma LowByte(t: Word, b: bv8)
    ensures ShiftIn(t, SignExtend(b)) & 0x80 == if b >= 0x80 then 0x80 else 0
    ensures SignExtend(b) & 0x80 == if b >= 0x80 then 0x80 else 0
  {
  }

  lemma OrSign(sign: Word, x: Word)
    requires (sign == 0 || sign == 0x80) && (x == 0 || x == 0x80)
    ensures sign | x == if sign == 0x80 || x == 0x80 then 0x80 else 0
  {
    if sign == 0 {
      assert sign | x == x;
    } else if x == 0 {
      assert sign | x == sign;
    } else {
      assert sign | x == 0x80;
    }
  }

  /** Differences are collected bit by bit. */
  function Differences(diff: Word, a: Word, b: Word): (r: Word)
    ensures r == 0 <==> diff == 0 && a == b
  {
    diff | (a ^ b)
  }

  /** Bit 16 if the flags ask for the safety measure. */
  function Safety(flags: bv8): (r: Word)
    ensures r == if flags & 2 == 2 then 0x10000 else 0
  {
    ((flags & 2) as Word) << 15
  }

  /** The branch-free tail: bit 16 survives exactly when asked for, no difference, and a sign was seen. */
  lemma SafetyBits(diff: Word, sign: Word, safety: Word)
    requires (sign == 0 || sign == 0x80) && (safety == 0 || safety == 0x10000)
    ensures var d1 := diff | (diff >> 16); var d2 := d1 & 0xFFFF; var d3 := d2 + 0xFFFF; var s := sign << 9;
            s & (!d3 & safety) == if diff == 0 && sign == 0x80 && safety == 0x10000 then 0x10000 else 0
  {
  }

  /** Some byte of word i among the first j, but not the first one, is high. */
  ghost predicate HighSoFar(key: Bytes, i: nat, j: nat) {
    (j > 1 && KeyByte(key, 4 * i + 1) >= 0x80) || (j > 2 && KeyByte(key, 4 * i + 2) >= 0x80)
    || (j > 3 && KeyByte(key, 4 * i + 3) >= 0x80)
  }

  function MarkSign(sign: Word, t: Word): Word {
    sign | (t & 0x80)
  }

  lemma SignStep(sign: Word, t: Word, b: bv8)
    requires sign == 0 || sign == 0x80
    ensures MarkSign(sign, ShiftIn(t, SignExtend(b))) == if sign == 0x80 || b >= 0x80 then 0x80 else 0
  {
    hide ShiftIn, SignExtend;
    LowByte(t, b);
    OrSign(sign, ShiftIn(t, SignExtend(b)) & 0x80);
  }

  lemma HighStep(key: Bytes, i: nat, j: nat)
    requires j < 4
    ensures HighSoFar(key, i, j + 1) <==> HighSoFar(key, i, j) || (j > 0 && KeyByte(key, 4 * i + j) >= 0x80)
    ensures !HighSoFar(key, i, 0) && (HighSoFar(key, i, 4) <==> HighInWord(key, i))
  {
    hide KeyByte;
  }

  /** The inner loop: four bytes shifted into both words, the pointer cycling through the key. */
  method ExpandWord(key: CString, i: nat, ptr: nat, sign: Word)
    returns (correct: Word, buggy: Word, ptr': nat, sign': Word)
    requires ptr == Position(|key|, 4 * i) && (sign == 0 || sign == 0x80)
    ensures correct == CorrectWord(key, i) && buggy == BuggyWord(key, i)
    ensures ptr' == Position(|key|, 4 * i + 4)
    ensures sign' == if sign == 0x80 || HighInWord(key, i) then 0x80 else 0
  {
    hide ShiftIn, SignExtend, KeyByte, MarkSign, HighSoFar, HighInWord, Position;
    correct, buggy, ptr', sign' := 0, 0, ptr, sign;
    HighStep(key, i, 0);
    var j := 0;
    while j < 4
      invariant 0 <= j <= 4 && ptr' == Position(|key|, 4 * i + j)
      invariant correct == PartialCorrect(key, i, j) && buggy == PartialBuggy(key, i, j)
      invariant sign' == if sign == 0x80 || HighSoFar(key, i, j) then 0x80 else 0
    {
      PositionByte(key, 4 * i + j);
      HighStep(key, i, j);
      var c := At(key, ptr');
      ghost var b0 := buggy;
      correct := ShiftIn(correct, c as Word);
      buggy := ShiftIn(buggy, SignExtend(c));
      if j != 0 {
        SignStep(sign', b0, c);
        sign' := MarkSign(sign', buggy);
      }
      ptr' := if c == 0 then 0 else ptr' + 1;
      j := j + 1;
    }
  }

  /** What the outer loop has established after n words. */
  ghost predicate SetUp(key: Bytes, flags: bv8, initP: Words, n: nat, expanded: Words, initial: Words, diff: Word, sign: Word)
    requires |initP| == 18
  {
    && n <= 18 && |expanded| == 18 && |initial| == 18
    && (forall k :: 0 <= k < n ==> expanded[k] == KeyWord(key, flags, k))
    && (forall k :: 0 <= k < n ==> initial[k] == Xor(initP[k], KeyWord(key, flags, k)))
    && (diff == 0 <==> FormsAgree(key, n))
    && (sign == if HighByte(key, n) then 0x80 else 0)
  }

  lemma AgreeStep(key: Bytes, n: nat)
    ensures FormsAgree(key, n + 1) <==> FormsAgree(key, n) && CorrectWord(key, n) == BuggyWord(key, n)
    ensures HighByte(key, n + 1) <==> HighByte(key, n) || HighInWord(key, n)
    ensures FormsAgree(key, 0) && !HighByte(key, 0)
  {
    if HighByte(key, n) {
      var i :| 0 <= i < n && HighInWord(key, i);
      assert HighByte(key, n + 1);
    }
  }

  /** The branch-free tail of BF_set_key. */
  method SafetyMask(diff: Word, sign: Word, safety: Word) returns (mask: Word)
    requires (sign == 0 || sign == 0x80) && (safety == 0 || safety == 0x10000)
    ensures mask == if diff == 0 && sign == 0x80 && safety == 0x10000 then 0x10000 else 0
  {
    SafetyBits(diff, sign, safety);
    var d := diff;
    d := d | (d >> 16);
    d := d & 0xFFFF;
    d := d + 0xFFFF;
    mask := sign << 9;
    mask := mask & (!d & safety);
  }

  /** BF_set_key: fills both arrays; only the initial key deviates, in bit 16 of its first word. */
  method BFSetKey(key: CString, expanded: array<Word>, initial: array<Word>, initP: Words, flags: bv8)
    requires expanded.Length == 18 && initial.Length == 18 && expanded != initial && |initP| == 18
    modifies expanded, initial
    ensures KeyArrays(key, flags, initP, expanded[..], initial[..])
    ensures expanded[..] == Expanded(key, flags)
    ensures initial[..] == InitialP(initP, key, flags)
  {
    hide KeyWord, Xor, Differences, Safety, KeyByte, CorrectWord, BuggyWord, HighInWord, HighByte, FormsAgree, KeyArrays;
    AgreeStep(key, 0);
    var safety := Safety(flags);
    var sign: Word, diff: Word, ptr, i := 0, 0, 0, 0;
    while i < 18
      invariant 0 <= i <= 18 && ptr == Position(|key|, 4 * i)
      invariant SetUp(key, flags, initP, i, expanded[..], initial[..], diff, sign)
    {
      var correct, buggy: Word;
      correct, buggy, ptr, sign := ExpandWord(key, i, ptr, sign);
      AgreeStep(key, i);
      diff := Differences(diff, correct, buggy);
      var word := Select(key, flags, i, correct, buggy);
      expanded[i] := word;
      initial[i] := Xor(initP[i], word);
      i := i + 1;
    }
    sign := SafetyMask(diff, sign, safety);
    initial[0] := Xor(initial[0], sign);
    KeyArraysIff(key, flags, initP, expanded[..], initial[..]);
  }

  /** tmp[bug] */
  method Select(ghost key: Bytes, flags: bv8, ghost i: nat, correct: Word, buggy: Word) returns (word: Word)
    requires correct == CorrectWord(key, i) && buggy == BuggyWord(key, i)
    ensures word == KeyWord(key, flags, i)
  {
    hide CorrectWord, BuggyWord;
    word := if flags & 1 == 1 then buggy else correct;
  }
}

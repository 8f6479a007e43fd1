/**
 * The Blowfish block cipher as crypt_blowfish runs it: sixteen Feistel rounds over a key array P of
 * 18 words and four S-boxes of 256 words, the boxes held one after the other.
 */
module Blowfish {
  import opened KeySetup

  const P_WORDS := 18
  const S_WORDS := 1024
  const CTX_WORDS := 1042

  datatype Block = Block(l: Word, r: Word)

  function Sum(a: Word, b: Word): Word {
    a + b
  }

  /** The box index a byte of the word selects, for the boxes 0 (highest byte) to 3. */
  function Index(x: Word, box: nat): (i: nat)
    requires box < 4
    ensures i < 256
  {
    if box == 0 then (x >> 24) as bv8 as nat
    else if box == 1 then ((x >> 16) & 0xFF) as bv8 as nat
    else if box == 2 then ((x >> 8) & 0xFF) as bv8 as nat
    else (x & 0xFF) as bv8 as nat
  }

  /** The same index by the byte offset into the table, for machines without scaled addressing. */
  function OffsetIndex(x: Word, box: nat): (i: nat)
    requires box < 4
    ensures i < 256
  {
    if box == 0 then (((x >> 22) & 0x3FC) >> 2) as bv8 as nat
    else if box == 1 then (((x >> 14) & 0x3FC) >> 2) as bv8 as nat
    else if box == 2 then (((x >> 6) & 0x3FC) >> 2) as bv8 as nat
    else (((x & 0xFF) << 2) >> 2) as bv8 as nat
  }

  lemma OffsetIsIndex(x: Word, box: nat)
    requires box < 4
    ensures OffsetIndex(x, box) == Index(x, box)
  {
    assert ((x >> 22) & 0x3FC) >> 2 == x >> 24;
    assert ((x >> 14) & 0x3FC) >> 2 == (x >> 16) & 0xFF;
    assert ((x >> 6) & 0x3FC) >> 2 == (x >> 8) & 0xFF;
    assert ((x & 0xFF) << 2) >> 2 == x & 0xFF;
  }

  /** The round function over any way of indexing: ((S0 + S1) ^ S2) + S3. */
  function Mix(s: Words, i0: nat, i1: nat, i2: nat, i3: nat): Word
    requires |s| == S_WORDS && i0 < 256 && i1 < 256 && i2 < 256 && i3 < 256
  {
    Sum(Xor(Sum(s[i0], s[256 + i1]), s[512 + i2]), s[768 + i3])
  }

  function F(s: Words, x: Word): Word
    requires |s| == S_WORDS
  {
    Mix(s, Index(x, 0), Index(x, 1), Index(x, 2), Index(x, 3))
  }

  function UnscaledF(s: Words, x: Word): Word
    requires |s| == S_WORDS
  {
    Mix(s, OffsetIndex(x, 0), OffsetIndex(x, 1), OffsetIndex(x, 2), OffsetIndex(x, 3))
  }

  /** Both forms of BF_ROUND compute the same function, for all boxes and words. */
  lemma ScaledIsUnscaled(s: Words, x: Word)
    requires |s| == S_WORDS
    ensures UnscaledF(s, x) == F(s, x)
  {
    hide Index, OffsetIndex;
    OffsetIsIndex(x, 0);
    OffsetIsIndex(x, 1);
    OffsetIsIndex(x, 2);
    OffsetIsIndex(x, 3);
  }

  /** BF_ROUND: the half that changes. */
  function Round(p: Words, s: Words, l: Word, r: Word, n: nat): Word
    requires |p| == P_WORDS && |s| == S_WORDS && n < 16
  {
    Xor(Xor(r, p[n + 1]), F(s, l))
  }

  /** The halves after n rounds, the active one first: each round changes the other and swaps. */
  function Rounds(p: Words, s: Words, b: Block, n: nat): Block
    requires |p| == P_WORDS && |s| == S_WORDS && n <= 16
  {
    if n == 0 then b
    else
      var m := Rounds(p, s, b, n - 1);
      Block(Round(p, s, m.l, m.r, n - 1), m.l)
  }

  /** BF_ENCRYPT as a function of the tables and the block. */
  function Encrypt(p: Words, s: Words, b: Block): Block
    requires |p| == P_WORDS && |s| == S_WORDS
  {
    var m := Rounds(p, s, Block(Xor(b.l, p[0]), b.r), 16);
    Block(Xor(m.r, p[17]), m.l)
  }

  // ---------------------------------------------------------------------------
  // The cipher by its history
  // ---------------------------------------------------------------------------

  lemma SumIs(a: Word, b: Word)
    ensures Sum(a, b) == a + b
  {
  }

  lemma XorIs(a: Word, b: Word)
    ensures Xor(a, b) == a ^ b
  {
  }

  lemma AddSame(a: Word, b: Word, x: Word)
    ensures a == x ==> a + b == x + b
  {
  }

  lemma XorSame(a: Word, b: Word, x: Word)
    ensures a == x ==> a ^ b == x ^ b
  {
  }

  /** A sum or exclusive-or in terms of an equal first word. */
  lemma SumTo(a: Word, b: Word, x: Word)
    ensures a == x ==> Sum(a, b) == x + b
  {
    hide Sum;
    SumIs(a, b);
    AddSame(a, b, x);
  }

  lemma XorTo(a: Word, b: Word, x: Word)
    ensures a == x ==> Xor(a, b) == x ^ b
  {
    hide Xor;
    XorIs(a, b);
    XorSame(a, b, x);
  }

  lemma XorToBoth(a: Word, b: Word, x: Word, y: Word)
    ensures a == x && b == y ==> Xor(a, b) == x ^ y
  {
    hide Xor;
    XorTo(a, b, x);
  }

  /** Two box words added, and a third mixed in. */
  lemma ThreeSpelled(a: Word, b: Word, c: Word)
    ensures Xor(Sum(a, b), c) == (a + b) ^ c
  {
    hide Sum, Xor;
    SumIs(a, b);
    XorTo(Sum(a, b), c, a + b);
  }

  /** Four box words, added, xored and added. */
  lemma MixSpelled(a: Word, b: Word, c: Word, d: Word)
    ensures Sum(Xor(Sum(a, b), c), d) == ((a + b) ^ c) + d
  {
    hide Sum, Xor;
    ThreeSpelled(a, b, c);
    SumTo(Xor(Sum(a, b), c), d, (a + b) ^ c);
  }

  lemma RoundWords(r: Word, p: Word, f: Word, g: Word)
    ensures f == g ==> Xor(Xor(r, p), f) == r ^ p ^ g
  {
    hide Xor;
    XorIs(r, p);
    XorToBoth(Xor(r, p), f, r ^ p, g);
  }

  lemma IndexSpelled(x: Word)
    ensures Index(x, 0) == (x >> 24) as bv8 as nat
    ensures Index(x, 1) == ((x >> 16) & 0xFF) as bv8 as nat
    ensures Index(x, 2) == ((x >> 8) & 0xFF) as bv8 as nat
    ensures Index(x, 3) == (x & 0xFF) as bv8 as nat
  {
  }

  /** What a round makes of a half r, a P word and the four selected box words. */
  predicate Spelled(a: Word, b: Word, c: Word, d: Word, p: Word, r: Word, r': Word) {
    r' == r ^ p ^ (((a + b) ^ c) + d)
  }

  lemma SpelledIs(a: Word, b: Word, c: Word, d: Word, p: Word, r: Word, r': Word)
    ensures Spelled(a, b, c, d, p, r, r') <==> r' == r ^ p ^ (((a + b) ^ c) + d)
  {
  }

  lemma SameTarget(x: Word, y: Word, z: Word)
    ensures y == z ==> (x == y <==> x == z)
  {
  }

  lemma SpelledIff(a: Word, b: Word, c: Word, d: Word, p: Word, r: Word, r': Word)
    ensures Spelled(a, b, c, d, p, r, r') <==> r' == Xor(Xor(r, p), Sum(Xor(Sum(a, b), c), d))
  {
    hide Sum, Xor, Spelled;
    MixSpelled(a, b, c, d);
    RoundWords(r, p, Sum(Xor(Sum(a, b), c), d), ((a + b) ^ c) + d);
    SpelledIs(a, b, c, d, p, r, r');
    SameTarget(r', Xor(Xor(r, p), Sum(Xor(Sum(a, b), c), d)), r ^ p ^ (((a + b) ^ c) + d));
  }

  /**
   * One round spelled out: the new left half is the old right half with the next P word and the four
   * selected box words, added, xored and added; the new right half is the old left half.
   */
  ghost predicate RoundTo(p: Words, s: Words, x: Block, y: Block, n: nat)
    requires |p| == 18 && |s| == 1024 && n < 16
  {
    && Spelled(s[(x.l >> 24) as bv8 as nat], s[256 + ((x.l >> 16) & 0xFF) as bv8 as nat],
               s[512 + ((x.l >> 8) & 0xFF) as bv8 as nat], s[768 + (x.l & 0xFF) as bv8 as nat],
               p[n + 1], x.r, y.l)
    && y.r == x.l
  }

  /** Seventeen blocks from the input with P[0] mixed in, a round apart; P[17] is mixed into the exchanged last one. */
  ghost predicate History(t: seq<Block>, p: Words, s: Words, b: Block, c: Block)
    requires |p| == 18 && |s| == 1024
  {
    && |t| == 17
    && t[0] == Block(b.l ^ p[0], b.r)
    && (forall n :: 0 <= n < 16 ==> RoundTo(p, s, t[n], t[n + 1], n))
    && c == Block(t[16].r ^ p[17], t[16].l)
  }

  ghost predicate Enciphers(p: Words, s: Words, b: Block, c: Block)
    requires |p| == 18 && |s| == 1024
  {
    exists t :: History(t, p, s, b, c)
  }

  lemma RoundByIndex(p: Words, s: Words, l: Word, r: Word, r': Word, n: nat)
    requires |p| == P_WORDS && |s| == S_WORDS && n < 16
    ensures Spelled(s[Index(l, 0)], s[256 + Index(l, 1)], s[512 + Index(l, 2)], s[768 + Index(l, 3)], p[n + 1], r, r')
            <==> r' == Round(p, s, l, r, n)
  {
    hide Spelled, Xor, Sum, Index;
    SpelledIff(s[Index(l, 0)], s[256 + Index(l, 1)], s[512 + Index(l, 2)], s[768 + Index(l, 3)], p[n + 1], r, r');
  }

  lemma RoundSpelled(p: Words, s: Words, l: Word, r: Word, r': Word, n: nat)
    requires |p| == P_WORDS && |s| == S_WORDS && n < 16
    ensures Spelled(s[(l >> 24) as bv8 as nat], s[256 + ((l >> 16) & 0xFF) as bv8 as nat],
                    s[512 + ((l >> 8) & 0xFF) as bv8 as nat], s[768 + (l & 0xFF) as bv8 as nat], p[n + 1], r, r')
            <==> r' == Round(p, s, l, r, n)
  {
    hide Spelled, Round, Index;
    IndexSpelled(l);
    RoundByIndex(p, s, l, r, r', n);
  }

  lemma RoundToIff(p: Words, s: Words, x: Block, y: Block, n: nat)
    requires |p| == P_WORDS && |s| == S_WORDS && n < 16
    ensures RoundTo(p, s, x, y, n) <==> y == Block(Round(p, s, x.l, x.r, n), x.l)
  {
    hide Round, Spelled;
    RoundSpelled(p, s, x.l, x.r, y.l, n);
  }

  /** A history has the blocks after n rounds as its entry n. */
  lemma {:induction false} HistoryIsRounds(t: seq<Block>, p: Words, s: Words, b: Block, c: Block, n: nat)
    requires |p| == P_WORDS && |s| == S_WORDS && History(t, p, s, b, c) && n <= 16
    ensures t[n] == Rounds(p, s, Block(Xor(b.l, p[0]), b.r), n)
  {
    hide RoundTo, Round, Xor;
    if n > 0 {
      HistoryIsRounds(t, p, s, b, c, n - 1);
      RoundToIff(p, s, t[n - 1], t[n], n - 1);
    } else {
      XorIs(b.l, p[0]);
    }
  }

  lemma RoundsAreHistory(p: Words, s: Words, b: Block) returns (t: seq<Block>)
    requires |p| == P_WORDS && |s| == S_WORDS
    ensures History(t, p, s, b, Encrypt(p, s, b))
  {
    hide RoundTo, Round, Xor;
    var start := Block(Xor(b.l, p[0]), b.r);
    t := seq(17, i requires 0 <= i < 17 => Rounds(p, s, start, i));
    XorIs(b.l, p[0]);
    forall n | 0 <= n < 16 ensures RoundTo(p, s, t[n], t[n + 1], n) {
      RoundToIff(p, s, t[n], t[n + 1], n);
    }
    XorIs(t[16].r, p[17]);
  }

  /** The cipher's output is the one block that such a history leads to. */
  lemma EnciphersIff(p: Words, s: Words, b: Block, c: Block)
    requires |p| == P_WORDS && |s| == S_WORDS
    ensures Enciphers(p, s, b, c) <==> c == Encrypt(p, s, b)
  {
    hide RoundTo, Round, Xor, Rounds;
    var t := RoundsAreHistory(p, s, b);
    if Enciphers(p, s, b, c) {
      var u: seq<Block> :| History(u, p, s, b, c);
      HistoryIsRounds(u, p, s, b, c, 16);
      XorIs(u[16].r, p[17]);
    }
  }

  // ---------------------------------------------------------------------------
  // The cipher is a permutation
  // ---------------------------------------------------------------------------

  function Reversed(p: Words): (q: Words)
    ensures |q| == |p|
    ensures forall i :: 0 <= i < |p| ==> q[i] == p[|p| - 1 - i]
  {
    seq(|p|, i requires 0 <= i < |p| => p[|p| - 1 - i])
  }

  /** The same rounds with P reversed. */
  function Decrypt(p: Words, s: Words, b: Block): Block
    requires |p| == P_WORDS && |s| == S_WORDS
  {
    Encrypt(Reversed(p), s, b)
  }

  lemma XorCancels(a: Word, b: Word)
    ensures Xor(Xor(a, b), b) == a
  {
  }

  lemma XorCancelsTwice(a: Word, b: Word, c: Word)
    ensures Xor(Xor(Xor(Xor(a, b), c), b), c) == a
  {
  }

  /** Running n rounds backwards from round 16 meets the forward rounds in between, halves exchanged. */
  lemma {:induction false} RoundsMeet(p: Words, s: Words, b: Block, n: nat)
    requires |p| == P_WORDS && |s| == S_WORDS && n <= 16
    ensures var m := Rounds(p, s, b, 16);
            var k := Rounds(p, s, b, 16 - n);
            Rounds(Reversed(p), s, Block(m.r, m.l), n) == Block(k.r, k.l)
  {
    hide Xor, F;
    if n > 0 {
      RoundsMeet(p, s, b, n - 1);
      var k := Rounds(p, s, b, 16 - n);
      var m := Rounds(p, s, b, 17 - n);
      assert m == Block(Round(p, s, k.l, k.r, 16 - n), k.l);
      assert Reversed(p)[n] == p[17 - n];
      XorCancelsTwice(k.r, p[17 - n], F(s, k.l));
    }
  }

  /** Decryption inverts encryption for all tables and blocks. */
  lemma DecryptInverts(p: Words, s: Words, b: Block)
    requires |p| == P_WORDS && |s| == S_WORDS
    ensures Decrypt(p, s, Encrypt(p, s, b)) == b
  {
    hide Xor, Rounds, F;
    var start := Block(Xor(b.l, p[0]), b.r);
    var m := Rounds(p, s, start, 16);
    XorCancels(m.r, p[17]);
    RoundsMeet(p, s, start, 16);
    RoundsNone(p, s, start);
    XorCancels(b.l, p[0]);
  }

  lemma RoundsNone(p: Words, s: Words, b: Block)
    requires |p| == P_WORDS && |s| == S_WORDS
    ensures Rounds(p, s, b, 0) == b
  {
  }

  lemma TwoRounds(p: Words, s: Words, b: Block, n: nat)
    requires |p| == P_WORDS && |s| == S_WORDS && n + 2 <= 16
    ensures var m := Rounds(p, s, b, n);
            var r := Round(p, s, m.l, m.r, n);
            Rounds(p, s, b, n + 2) == Block(Round(p, s, r, m.l, n + 1), r)
  {
    hide Round;
    assert Rounds(p, s, b, n + 1).r == Rounds(p, s, b, n).l;
  }

  /** BF_ENCRYPT is a permutation of the blocks: injective, and every block is an encryption. */
  lemma EncryptIsPermutation(p: Words, s: Words, b: Block, c: Block)
    requires |p| == P_WORDS && |s| == S_WORDS
    ensures Encrypt(p, s, b) == Encrypt(p, s, c) ==> b == c
    ensures Encrypt(p, s, Decrypt(p, s, c)) == c
  {
    hide Encrypt;
    DecryptInverts(p, s, b);
    DecryptInverts(p, s, c);
    DecryptInverts(Reversed(p), s, c);
    assert Reversed(Reversed(p)) == p;
  }

  // ---------------------------------------------------------------------------
  // The cipher on the tables in memory
  // ---------------------------------------------------------------------------

  /** BF_ctx: the tables that the key schedule overwrites. */
  class Ctx {
    const P: array<Word>
    const S: array<Word>

    ghost predicate Valid()
      reads this
    {
      P.Length == P_WORDS && S.Length == S_WORDS && P != S
    }

    constructor (initS: Words)
      requires |initS| == S_WORDS
      ensures Valid() && fresh(P) && fresh(S) && S[..] == initS
    {
      P := new Word[18];
      S := new Word[1024](i requires 0 <= i < 1024 => initS[i]);
      new;
      assert S[..] == initS;
    }

    /** Both tables as one run of words. */
    ghost function Words(): (w: Words)
      requires Valid()
      reads this, P, S
      ensures |w| == CTX_WORDS
    {
      P[..] + S[..]
    }

    /** BF_ROUND(L, R, N): the new right half. */
    method BFRound(l: Word, r: Word, n: nat) returns (r': Word)
      requires Valid() && n < 16
      ensures r' == Round(P[..], S[..], l, r, n)
      ensures RoundTo(P[..], S[..], Block(l, r), Block(r', l), n)
    {
      hide Xor, Sum, Index, RoundTo;
      var tmp1 := S[768 + Index(l, 3)];
      var tmp2 := S[512 + Index(l, 2)];
      var tmp3 := S[256 + Index(l, 1)];
      tmp3 := Sum(S[Index(l, 0)], tmp3);
      tmp3 := Xor(tmp3, tmp2);
      r' := Xor(r, P[n + 1]);
      tmp3 := Sum(tmp3, tmp1);
      r' := Xor(r', tmp3);
      RoundToIff(P[..], S[..], Block(l, r), Block(r', l), n);
    }

    /** BF_ENCRYPT, unrolled as in the source. */
    method EncryptBlock(l: Word, r: Word) returns (L: Word, R: Word)
      requires Valid()
      ensures Enciphers(P[..], S[..], Block(l, r), Block(L, R))
      ensures Block(L, R) == Encrypt(P[..], S[..], Block(l, r))
    {
      hide Xor, Round, Rounds, RoundTo;
      ghost var p, s := P[..], S[..];
      L, R := l, r;
      L := Xor(L, P[0]);
      ghost var b := Block(L, R);
      RoundsNone(p, s, b);
      R := BFRound(L, R, 0);
      L := BFRound(R, L, 1);
      TwoRounds(p, s, b, 0);
      R := BFRound(L, R, 2);
      L := BFRound(R, L, 3);
      TwoRounds(p, s, b, 2);
      R := BFRound(L, R, 4);
      L := BFRound(R, L, 5);
      TwoRounds(p, s, b, 4);
      R := BFRound(L, R, 6);
      L := BFRound(R, L, 7);
      TwoRounds(p, s, b, 6);
      R := BFRound(L, R, 8);
      L := BFRound(R, L, 9);
      TwoRounds(p, s, b, 8);
      R := BFRound(L, R, 10);
      L := BFRound(R, L, 11);
      TwoRounds(p, s, b, 10);
      R := BFRound(L, R, 12);
      L := BFRound(R, L, 13);
      TwoRounds(p, s, b, 12);
      R := BFRound(L, R, 14);
      L := BFRound(R, L, 15);
      TwoRounds(p, s, b, 14);
      var tmp4 := R;
      R := L;
      L := Xor(tmp4, P[17]);
      assert Block(L, R) == Encrypt(p, s, Block(l, r));
      hide Encrypt, Enciphers;
      EnciphersIff(p, s, Block(l, r), Block(L, R));
    }
  }
}

/**
 * The expensive key schedule of bcrypt ("A Future-Adaptable Password Scheme", section 4): expansions
 * that overwrite the cipher's own tables, chained block by block. The functions define the schedule
 * without overwriting anything; the methods are the in-place loops of BF_body and BF_crypt.
 */
module Eksblowfish {
  import opened KeySetup
  import opened Blowfish

  const BLOCKS := 521
  const ZERO_SALT: Words := [0, 0, 0, 0]

  function Enc(w: Words, b: Block): Block
    requires |w| == CTX_WORDS
  {
    Encrypt(w[..P_WORDS], w[P_WORDS..], b)
  }

  /** The tables when the words `out` have replaced the first ones. */
  function Overwritten(w: Words, out: Words): (r: Words)
    requires |out| <= |w|
    ensures |r| == |w|
  {
    out + w[|out|..]
  }

  function LastBlock(out: Words): Block
    requires |out| != 1
  {
    if out == [] then Block(0, 0) else Block(out[|out| - 2], out[|out| - 1])
  }

  /** The salt words alternate: the first pair for even blocks, the second for odd ones. */
  function Salted(b: Block, salt: Words, n: nat): Block
    requires |salt| == 4
  {
    Block(Xor(b.l, salt[n % 2 * 2]), Xor(b.r, salt[n % 2 * 2 + 1]))
  }

  /** The first n blocks of an expansion: each encrypts the one before, under the tables so far. */
  function Chain(w: Words, salt: Words, n: nat): (out: Words)
    requires |w| == CTX_WORDS && |salt| == 4 && n <= BLOCKS
    ensures |out| == 2 * n
  {
    if n == 0 then []
    else
      var before := Chain(w, salt, n - 1);
      var b := Enc(Overwritten(w, before), Salted(LastBlock(before), salt, n - 1));
      before + [b.l, b.r]
  }

  /** A whole expansion replaces every word of the tables. */
  function Expand(w: Words, salt: Words): (r: Words)
    requires |w| == CTX_WORDS && |salt| == 4
    ensures |r| == CTX_WORDS
  {
    Chain(w, salt, BLOCKS)
  }

  /** Key words mixed into P; the boxes are left alone. */
  function MixP(w: Words, key: Words): (r: Words)
    requires |w| == CTX_WORDS && |key| == P_WORDS
    ensures |r| == CTX_WORDS
  {
    seq(CTX_WORDS, i requires 0 <= i < CTX_WORDS => if i < P_WORDS then Xor(w[i], key[i]) else w[i])
  }

  /** The salt as key words, repeated. */
  function SaltKey(salt: Words): (r: Words)
    requires |salt| == 4
    ensures |r| == P_WORDS
  {
    seq(P_WORDS, i requires 0 <= i < P_WORDS => salt[i % 4])
  }

  /** One round of the schedule: an unsalted expansion by the key, then one by the salt. */
  function KeyRound(w: Words, salt: Words, key: Words): (r: Words)
    requires |w| == CTX_WORDS && |salt| == 4 && |key| == P_WORDS
    ensures |r| == CTX_WORDS
  {
    Expand(MixP(Expand(MixP(w, key), ZERO_SALT), SaltKey(salt)), ZERO_SALT)
  }

  function KeyRounds(w: Words, salt: Words, key: Words, n: nat): (r: Words)
    requires |w| == CTX_WORDS && |salt| == 4 && |key| == P_WORDS
    ensures |r| == CTX_WORDS
  {
    if n == 0 then w else KeyRound(KeyRounds(w, salt, key, n - 1), salt, key)
  }

  function Pow2(n: nat): (r: nat)
    ensures r > 0
  {
    if n == 0 then 1 else 2 * Pow2(n - 1)
  }

  /** EksBlowfishSetup: one salted expansion, then 2^cost rounds. */
  function Setup(w: Words, salt: Words, key: Words, cost: nat): (r: Words)
    requires |w| == CTX_WORDS && |salt| == 4 && |key| == P_WORDS
    ensures |r| == CTX_WORDS
  {
    KeyRounds(Expand(w, salt), salt, key, Pow2(cost))
  }

  // ---------------------------------------------------------------------------
  // Properties of the schedule
  // ---------------------------------------------------------------------------

  /** Words once written are never changed again within an expansion. */
  lemma {:induction false} ChainPrefix(w: Words, salt: Words, m: nat, n: nat)
    requires |w| == CTX_WORDS && |salt| == 4 && m <= n <= BLOCKS
    ensures Chain(w, salt, n)[..2 * m] == Chain(w, salt, m)
    decreases n
  {
    hide Enc, Salted, Overwritten;
    if m < n {
      ChainPrefix(w, salt, m, n - 1);
      assert Chain(w, salt, n)[..2 * m] == Chain(w, salt, n - 1)[..2 * m];
    }
  }

  /**
   * The expansion as a chained encryption: block n of the result is the encryption of block n - 1
   * mixed with the salt, under tables of which exactly the blocks before n are new.
   */
  lemma ExpansionIsChained(w: Words, salt: Words, n: nat)
    requires |w| == CTX_WORDS && |salt| == 4 && n < BLOCKS
    ensures var r := Expand(w, salt);
            var previous := if n == 0 then Block(0, 0) else Block(r[2 * n - 2], r[2 * n - 1]);
            Block(r[2 * n], r[2 * n + 1]) == Enc(r[..2 * n] + w[2 * n..], Salted(previous, salt, n))
  {
    hide Enc, Salted;
    var r := Expand(w, salt);
    ChainPrefix(w, salt, n, BLOCKS);
    ChainPrefix(w, salt, n + 1, BLOCKS);
    var next := Chain(w, salt, n + 1);
    assert r[2 * n] == next[2 * n] && r[2 * n + 1] == next[2 * n + 1];
    assert n > 0 ==> r[2 * n - 2] == Chain(w, salt, n)[2 * n - 2] && r[2 * n - 1] == Chain(w, salt, n)[2 * n - 1];
  }

  // ---------------------------------------------------------------------------
  // The schedule by its history
  // ---------------------------------------------------------------------------

  /**
   * Block n of an expansion of w: the block before, or zero, with the first salt pair mixed in for
   * even n and the second for odd n, enciphered under tables of which exactly the blocks before n are new.
   */
  ghost predicate BlockExpands(w: Words, salt: Words, r: Words, n: nat)
    requires |w| == |r| == 1042 && |salt| == 4 && n < 521
  {
    var previous := if n == 0 then Block(0, 0) else Block(r[2 * n - 2], r[2 * n - 1]);
    var mixed := if n % 2 == 0 then Block(Xor(previous.l, salt[0]), Xor(previous.r, salt[1]))
                 else Block(Xor(previous.l, salt[2]), Xor(previous.r, salt[3]));
    var now := r[..2 * n] + w[2 * n..];
    Enciphers(now[..18], now[18..], mixed, Block(r[2 * n], r[2 * n + 1]))
  }

  /** All 521 blocks, 9 over P and 512 over S. */
  ghost predicate Expands(w: Words, salt: Words, r: Words)
    requires |w| == 1042 && |salt| == 4
  {
    |r| == 1042 && forall n :: 0 <= n < 521 ==> BlockExpands(w, salt, r, n)
  }

  /** The key is mixed into P, word by word; the boxes stay. */
  ghost predicate KeyMixed(w: Words, m: Words, key: Words)
    requires |w| == 1042 && |key| == 18
  {
    && |m| == 1042
    && (forall k :: 0 <= k < 18 ==> m[k] == w[k] ^ key[k])
    && (forall k :: 18 <= k < 1042 ==> m[k] == w[k])
  }

  /** The four salt words are mixed into P in turn; the boxes stay. */
  ghost predicate SaltMixed(w: Words, m: Words, salt: Words)
    requires |w| == 1042 && |salt| == 4
  {
    && |m| == 1042
    && (forall k :: 0 <= k < 18 ==> m[k] == w[k] ^ salt[k % 4])
    && (forall k :: 18 <= k < 1042 ==> m[k] == w[k])
  }

  ghost predicate KeyTurn(w: Words, r: Words, key: Words)
    requires |w| == 1042 && |key| == 18
  {
    exists m: Words :: |m| == 1042 && KeyMixed(w, m, key) && Expands(m, [0, 0, 0, 0], r)
  }

  ghost predicate SaltTurn(w: Words, r: Words, salt: Words)
    requires |w| == 1042 && |salt| == 4
  {
    exists m: Words :: |m| == 1042 && SaltMixed(w, m, salt) && Expands(m, [0, 0, 0, 0], r)
  }

  /** Round i of a history: the key first, then the salt. */
  ghost predicate TurnPair(t: seq<Words>, salt: Words, key: Words, i: nat)
    requires 2 * i + 2 < |t| && |salt| == 4 && |key| == 18
  {
    && |t[2 * i]| == |t[2 * i + 1]| == 1042
    && KeyTurn(t[2 * i], t[2 * i + 1], key)
    && SaltTurn(t[2 * i + 1], t[2 * i + 2], salt)
  }

  /** All tables of a set-up: the salted expansion, and two more for every round. */
  ghost predicate SetupHistory(t: seq<Words>, w: Words, salt: Words, key: Words, rounds: nat)
    requires |w| == 1042 && |salt| == 4 && |key| == 18
  {
    && |t| == 2 * rounds + 1
    && Expands(w, salt, t[0])
    && forall i :: 0 <= i < rounds ==> TurnPair(t, salt, key, i)
  }

  /** A set-up with 2^cost rounds leads from w to r. */
  ghost predicate SetsUp(w: Words, salt: Words, key: Words, cost: nat, r: Words)
    requires |w| == 1042 && |salt| == 4 && |key| == 18
  {
    exists t :: SetupHistory(t, w, salt, key, Pow2(cost)) && r == t[2 * Pow2(cost)]
  }

  lemma SaltedSpelled(b: Block, salt: Words, n: nat)
    requires |salt| == 4
    ensures Salted(b, salt, n) == if n % 2 == 0 then Block(Xor(b.l, salt[0]), Xor(b.r, salt[1]))
                                  else Block(Xor(b.l, salt[2]), Xor(b.r, salt[3]))
  {
    hide Xor;
  }

  lemma BlockExpandsIff(w: Words, salt: Words, r: Words, n: nat)
    requires |w| == |r| == CTX_WORDS && |salt| == 4 && n < BLOCKS
    ensures var previous := if n == 0 then Block(0, 0) else Block(r[2 * n - 2], r[2 * n - 1]);
            BlockExpands(w, salt, r, n)
            <==> Block(r[2 * n], r[2 * n + 1]) == Enc(r[..2 * n] + w[2 * n..], Salted(previous, salt, n))
  {
    hide Enciphers, Encrypt, Salted, Xor;
    var previous := if n == 0 then Block(0, 0) else Block(r[2 * n - 2], r[2 * n - 1]);
    var now := r[..2 * n] + w[2 * n..];
    SaltedSpelled(previous, salt, n);
    EnciphersIff(now[..P_WORDS], now[P_WORDS..], Salted(previous, salt, n), Block(r[2 * n], r[2 * n + 1]));
  }

  lemma ChainStep(w: Words, salt: Words, r: Words, n: nat)
    requires |w| == |r| == CTX_WORDS && |salt| == 4 && n < BLOCKS
    requires BlockExpands(w, salt, r, n) && r[..2 * n] == Chain(w, salt, n)
    ensures r[..2 * n + 2] == Chain(w, salt, n + 1)
  {
    hide Enc, Salted, BlockExpands;
    BlockExpandsIff(w, salt, r, n);
    var before := r[..2 * n];
    assert Overwritten(w, before) == r[..2 * n] + w[2 * n..];
    assert LastBlock(before) == if n == 0 then Block(0, 0) else Block(r[2 * n - 2], r[2 * n - 1]);
    assert r[..2 * n + 2] == before + [r[2 * n], r[2 * n + 1]];
  }

  lemma {:induction false} ExpandsIsChain(w: Words, salt: Words, r: Words, n: nat)
    requires |w| == CTX_WORDS && |salt| == 4 && Expands(w, salt, r) && n <= BLOCKS
    ensures r[..2 * n] == Chain(w, salt, n)
  {
    hide Chain, BlockExpands;
    if n == 0 {
      ChainNone(w, salt);
    } else {
      ExpandsIsChain(w, salt, r, n - 1);
      ChainStep(w, salt, r, n - 1);
    }
  }

  lemma ChainNone(w: Words, salt: Words)
    requires |w| == CTX_WORDS && |salt| == 4
    ensures Chain(w, salt, 0) == []
  {
  }

  /** Expansion yields the one result that is chained in this way. */
  lemma ExpandsIff(w: Words, salt: Words, r: Words)
    requires |w| == CTX_WORDS && |salt| == 4
    ensures Expands(w, salt, r) <==> r == Expand(w, salt)
  {
    hide Chain, BlockExpands, Enc, Salted;
    if r == Expand(w, salt) {
      forall n | 0 <= n < BLOCKS ensures BlockExpands(w, salt, r, n) {
        ExpansionIsChained(w, salt, n);
        BlockExpandsIff(w, salt, r, n);
      }
    }
    if Expands(w, salt, r) {
      ExpandsIsChain(w, salt, r, BLOCKS);
      assert r[..CTX_WORDS] == r;
    }
  }

  lemma KeyMixedIff(w: Words, m: Words, key: Words)
    requires |w| == CTX_WORDS && |key| == P_WORDS
    ensures KeyMixed(w, m, key) <==> m == MixP(w, key)
  {
    hide Xor;
    forall k | 0 <= k < 18 ensures Xor(w[k], key[k]) == w[k] ^ key[k] {
      XorIs(w[k], key[k]);
    }
  }

  lemma SaltMixedIff(w: Words, m: Words, salt: Words)
    requires |w| == CTX_WORDS && |salt| == 4
    ensures SaltMixed(w, m, salt) <==> m == MixP(w, SaltKey(salt))
  {
    hide Xor;
    forall k | 0 <= k < 18 ensures Xor(w[k], SaltKey(salt)[k]) == w[k] ^ salt[k % 4] {
      XorIs(w[k], SaltKey(salt)[k]);
    }
  }

  lemma KeyTurnIff(w: Words, r: Words, key: Words)
    requires |w| == CTX_WORDS && |key| == P_WORDS
    ensures KeyTurn(w, r, key) <==> r == Expand(MixP(w, key), ZERO_SALT)
  {
    hide KeyMixed, Expands, MixP, Expand;
    KeyMixedIff(w, MixP(w, key), key);
    ExpandsIff(MixP(w, key), ZERO_SALT, r);
    if KeyTurn(w, r, key) {
      var m: Words :| |m| == 1042 && KeyMixed(w, m, key) && Expands(m, [0, 0, 0, 0], r);
      KeyMixedIff(w, m, key);
    }
  }

  lemma SaltTurnIff(w: Words, r: Words, salt: Words)
    requires |w| == CTX_WORDS && |salt| == 4
    ensures SaltTurn(w, r, salt) <==> r == Expand(MixP(w, SaltKey(salt)), ZERO_SALT)
  {
    hide SaltMixed, Expands, MixP, Expand, SaltKey;
    SaltMixedIff(w, MixP(w, SaltKey(salt)), salt);
    ExpandsIff(MixP(w, SaltKey(salt)), ZERO_SALT, r);
    if SaltTurn(w, r, salt) {
      var m: Words :| |m| == 1042 && SaltMixed(w, m, salt) && Expands(m, [0, 0, 0, 0], r);
      SaltMixedIff(w, m, salt);
    }
  }

  /** One round by its history: a key turn and a salt turn lead from w to r. */
  ghost predicate RoundLeads(w: Words, r: Words, salt: Words, key: Words)
    requires |w| == 1042 && |salt| == 4 && |key| == 18
  {
    exists m: Words :: |m| == 1042 && KeyTurn(w, m, key) && SaltTurn(m, r, salt)
  }

  lemma RoundLeadsIff(w: Words, r: Words, salt: Words, key: Words)
    requires |w| == CTX_WORDS && |salt| == 4 && |key| == P_WORDS
    ensures RoundLeads(w, r, salt, key) <==> r == KeyRound(w, salt, key)
  {
    hide KeyTurn, SaltTurn, MixP, Expand, SaltKey;
    var half := Expand(MixP(w, key), ZERO_SALT);
    KeyTurnIff(w, half, key);
    SaltTurnIff(half, r, salt);
    if RoundLeads(w, r, salt, key) {
      var m: Words :| |m| == 1042 && KeyTurn(w, m, key) && SaltTurn(m, r, salt);
      KeyTurnIff(w, m, key);
    }
  }

  lemma TurnPairLeads(t: seq<Words>, salt: Words, key: Words, i: nat)
    requires 2 * i + 2 < |t| && |salt| == 4 && |key| == P_WORDS && TurnPair(t, salt, key, i)
    ensures |t[2 * i]| == CTX_WORDS && t[2 * i + 2] == KeyRound(t[2 * i], salt, key)
  {
    hide KeyTurn, SaltTurn, KeyRound;
    RoundLeadsIff(t[2 * i], t[2 * i + 2], salt, key);
  }

  lemma {:induction false} HistoryIsRounds(t: seq<Words>, w: Words, salt: Words, key: Words, rounds: nat, n: nat)
    requires |w| == CTX_WORDS && |salt| == 4 && |key| == P_WORDS && SetupHistory(t, w, salt, key, rounds) && n <= rounds
    ensures t[2 * n] == KeyRounds(Expand(w, salt), salt, key, n)
  {
    hide TurnPair, KeyRound, Expands, Expand;
    if n == 0 {
      ExpandsIff(w, salt, t[0]);
    } else {
      HistoryIsRounds(t, w, salt, key, rounds, n - 1);
      TurnPairLeads(t, salt, key, n - 1);
    }
  }

  lemma {:induction false} RoundsHaveHistory(w: Words, salt: Words, key: Words, n: nat) returns (t: seq<Words>)
    requires |w| == CTX_WORDS && |salt| == 4 && |key| == P_WORDS
    ensures SetupHistory(t, w, salt, key, n) && t[2 * n] == KeyRounds(Expand(w, salt), salt, key, n)
  {
    hide KeyTurn, SaltTurn, KeyRound, Expands, Expand;
    if n == 0 {
      t := [Expand(w, salt)];
      ExpandsIff(w, salt, t[0]);
    } else {
      var u := RoundsHaveHistory(w, salt, key, n - 1);
      var x := KeyRounds(Expand(w, salt), salt, key, n - 1);
      var y := KeyRound(x, salt, key);
      RoundLeadsIff(x, y, salt, key);
      var m: Words :| |m| == 1042 && KeyTurn(x, m, key) && SaltTurn(m, y, salt);
      t := u + [m, y];
      forall i | 0 <= i < n ensures TurnPair(t, salt, key, i) {
        assert i < n - 1 ==> TurnPair(u, salt, key, i);
      }
    }
  }

  /** The set-up yields the one result that such a history leads to. */
  lemma SetsUpIff(w: Words, salt: Words, key: Words, cost: nat, r: Words)
    requires |w| == CTX_WORDS && |salt| == 4 && |key| == P_WORDS
    ensures SetsUp(w, salt, key, cost, r) <==> r == Setup(w, salt, key, cost)
  {
    hide TurnPair, Expands, KeyRounds, Expand;
    var t := RoundsHaveHistory(w, salt, key, Pow2(cost));
    if SetsUp(w, salt, key, cost, r) {
      var u :| SetupHistory(u, w, salt, key, Pow2(cost)) && r == u[2 * Pow2(cost)];
      HistoryIsRounds(u, w, salt, key, Pow2(cost), Pow2(cost));
    }
  }

  lemma {:induction false} Pow2Fits(n: nat)
    requires n <= 31
    ensures Pow2(n) <= 0x8000_0000
  {
    Pow2Bound(n, 31);
    assert Pow2(31) == 0x8000_0000 by {
      assert Pow2(8) == 256;
      assert Pow2(16) == 65536;
      assert Pow2(24) == 0x100_0000;
    }
  }

  lemma {:induction false} Pow2Bound(m: nat, n: nat)
    requires m <= n
    ensures Pow2(m) <= Pow2(n)
    decreases n
  {
    if m < n {
      Pow2Bound(m, n - 1);
    }
  }

  lemma XorZero(a: Word)
    ensures Xor(a, 0) == a
  {
  }

  /** With a zero salt nothing is mixed in: this is what BF_body relies on. */
  lemma ZeroSaltIsNone(b: Block, n: nat)
    ensures Salted(b, ZERO_SALT, n) == b
  {
    hide Xor;
    XorZero(b.l);
    XorZero(b.r);
  }

  // ---------------------------------------------------------------------------
  // The in-place loops
  // ---------------------------------------------------------------------------

  lemma OverwriteNext(w: Words, out: Words, l: Word, r: Word)
    requires |out| + 2 <= |w|
    ensures Overwritten(w, out)[|out| := l][|out| + 1 := r] == Overwritten(w, out + [l, r])
  {
  }

  method StoreP(c: Ctx, i: nat, l: Word, r: Word)
    requires c.Valid() && i + 1 < P_WORDS
    modifies c.P
    ensures c.Words() == old(c.Words())[i := l][i + 1 := r]
  {
    c.P[i] := l;
    c.P[i + 1] := r;
  }

  method StoreS(c: Ctx, i: nat, l: Word, r: Word)
    requires c.Valid() && i + 1 < S_WORDS
    modifies c.S
    ensures c.Words() == old(c.Words())[P_WORDS + i := l][P_WORDS + i + 1 := r]
  {
    c.S[i] := l;
    c.S[i + 1] := r;
  }

  /** The tables and the running block after n blocks of an expansion of w. */
  ghost predicate Expanding(c: Ctx, w: Words, salt: Words, n: nat, l: Word, r: Word)
    requires c.Valid() && |w| == CTX_WORDS && |salt| == 4
    reads c, c.P, c.S
  {
    && n <= BLOCKS
    && c.Words() == Overwritten(w, Chain(w, salt, n))
    && Block(l, r) == LastBlock(Chain(w, salt, n))
  }

  lemma ExpandingNext(w: Words, salt: Words, n: nat, b: Block)
    requires |w| == CTX_WORDS && |salt| == 4 && n < BLOCKS
    requires b == Enc(Overwritten(w, Chain(w, salt, n)), Salted(LastBlock(Chain(w, salt, n)), salt, n))
    ensures Chain(w, salt, n + 1) == Chain(w, salt, n) + [b.l, b.r]
    ensures LastBlock(Chain(w, salt, n + 1)) == b
    ensures Overwritten(w, Chain(w, salt, n))[2 * n := b.l][2 * n + 1 := b.r] == Overwritten(w, Chain(w, salt, n + 1))
  {
    hide Enc, Salted, Overwritten;
    OverwriteNext(w, Chain(w, salt, n), b.l, b.r);
  }

  lemma EncIsEncrypt(c: Ctx, b: Block)
    requires c.Valid()
    ensures Enc(c.Words(), b) == Encrypt(c.P[..], c.S[..], b)
  {
    hide Encrypt;
    assert c.Words()[..P_WORDS] == c.P[..] && c.Words()[P_WORDS..] == c.S[..];
  }

  /** BF_body: both tables overwritten once, from a zero block. */
  method Body(c: Ctx)
    requires c.Valid()
    modifies c.P, c.S
    ensures Expands(old(c.Words()), [0, 0, 0, 0], c.Words())
    ensures c.Words() == Expand(old(c.Words()), ZERO_SALT)
  {
    hide Enc, Salted, Encrypt, Overwritten, Chain, LastBlock, Expands;
    ghost var w := c.Words();
    ExpandingStart(c, ZERO_SALT);
    var L: Word, R: Word, ptr := 0, 0, 0;
    while true
      invariant 0 <= ptr < P_WORDS && ptr % 2 == 0
      invariant Expanding(c, w, ZERO_SALT, ptr / 2, L, R)
      decreases P_WORDS - ptr
    {
      ptr := ptr + 2;
      L, R := NextBlock(c, w, ZERO_SALT, (ptr - 2) / 2, L, R);
      StoreP(c, ptr - 2, L, R);
      if ptr >= P_WORDS {
        break;
      }
    }
    ptr := 0;
    while true
      invariant 0 <= ptr < S_WORDS && ptr % 2 == 0
      invariant Expanding(c, w, ZERO_SALT, 9 + ptr / 2, L, R)
      decreases S_WORDS - ptr
    {
      ptr := ptr + 2;
      L, R := NextBlock(c, w, ZERO_SALT, 9 + (ptr - 2) / 2, L, R);
      StoreS(c, ptr - 2, L, R);
      if ptr >= 1023 {
        break;
      }
    }
    ExpandingEnd(w, ZERO_SALT);
    ExpandsIff(w, ZERO_SALT, c.Words());
  }

  lemma ExpandingStart(c: Ctx, salt: Words)
    requires c.Valid() && |salt| == 4
    ensures Expanding(c, c.Words(), salt, 0, 0, 0)
  {
  }

  lemma ExpandingEnd(w: Words, salt: Words)
    requires |w| == CTX_WORDS && |salt| == 4
    ensures Overwritten(w, Chain(w, salt, BLOCKS)) == Expand(w, salt)
  {
    hide Chain;
  }

  /** One unsalted block. */
  method NextBlock(c: Ctx, ghost w: Words, ghost salt: Words, ghost n: nat, l: Word, r: Word) returns (L: Word, R: Word)
    requires c.Valid() && |w| == CTX_WORDS && salt == ZERO_SALT && n < BLOCKS
    requires Expanding(c, w, salt, n, l, r)
    ensures c.Words()[2 * n := L][2 * n + 1 := R] == Overwritten(w, Chain(w, salt, n + 1))
    ensures Block(L, R) == LastBlock(Chain(w, salt, n + 1))
  {
    hide Enc, Salted, Encrypt, Overwritten, Chain, LastBlock;
    L, R := c.EncryptBlock(l, r);
    EncIsEncrypt(c, Block(l, r));
    ZeroSaltIsNone(Block(l, r), n);
    ExpandingNext(w, salt, n, Block(L, R));
  }

  /** One salted block, with the pair of salt words the code picks. */
  method NextSalted(c: Ctx, ghost w: Words, salt: Words, ghost n: nat, l: Word, r: Word, k: nat)
    returns (L: Word, R: Word)
    requires c.Valid() && |w| == CTX_WORDS && |salt| == 4 && n < BLOCKS && k == n % 2 * 2
    requires Expanding(c, w, salt, n, l, r)
    ensures c.Words()[2 * n := L][2 * n + 1 := R] == Overwritten(w, Chain(w, salt, n + 1))
    ensures Block(L, R) == LastBlock(Chain(w, salt, n + 1))
  {
    hide Enc, Xor, Encrypt, Overwritten, Chain, LastBlock;
    L := Xor(l, salt[k]);
    R := Xor(r, salt[k + 1]);
    EncIsEncrypt(c, Block(L, R));
    L, R := c.EncryptBlock(L, R);
    ExpandingNext(w, salt, n, Block(L, R));
  }

  /** i & 2 and (18 + i) & 3, which select the salt pair of P[i] and of S[i]. */
  function And2(i: nat): nat {
    i / 2 % 2 * 2
  }

  /** The salted expansion at the start of BF_crypt. */
  method SaltedExpansion(c: Ctx, salt: Words)
    requires c.Valid() && |salt| == 4
    modifies c.P, c.S
    ensures Expands(old(c.Words()), salt, c.Words())
    ensures c.Words() == Expand(old(c.Words()), salt)
  {
    hide Enc, Salted, Encrypt, Overwritten, Chain, LastBlock, Expands;
    ghost var w := c.Words();
    ExpandingStart(c, salt);
    var L: Word, R: Word, i := 0, 0, 0;
    while i < P_WORDS
      invariant 0 <= i <= P_WORDS && i % 2 == 0
      invariant Expanding(c, w, salt, i / 2, L, R)
    {
      L, R := NextSalted(c, w, salt, i / 2, L, R, And2(i));
      StoreP(c, i, L, R);
      i := i + 2;
    }
    SaltedBoxes(c, w, salt, L, R);
    ExpandingEnd(w, salt);
    ExpandsIff(w, salt, c.Words());
  }

  /** Its second loop, two blocks per turn over the boxes. */
  method SaltedBoxes(c: Ctx, ghost w: Words, salt: Words, l: Word, r: Word)
    requires c.Valid() && |salt| == 4 && |w| == CTX_WORDS && Expanding(c, w, salt, 9, l, r)
    modifies c.S
    ensures c.Words() == Overwritten(w, Chain(w, salt, BLOCKS))
  {
    hide Enc, Salted, Encrypt, Overwritten, Chain, LastBlock;
    var L, R, ptr := l, r, 0;
    while true
      invariant 0 <= ptr < S_WORDS && ptr % 4 == 0
      invariant Expanding(c, w, salt, 9 + ptr / 2, L, R)
      decreases S_WORDS - ptr
    {
      ptr := ptr + 4;
      L, R := NextSalted(c, w, salt, 9 + (ptr - 4) / 2, L, R, 2);
      StoreS(c, ptr - 4, L, R);
      L, R := NextSalted(c, w, salt, 9 + (ptr - 2) / 2, L, R, 0);
      StoreS(c, ptr - 2, L, R);
      if ptr >= 1023 {
        break;
      }
    }
  }

  /** P after the words before i were mixed with the key. */
  ghost predicate MixedUpTo(p: Words, before: Words, key: Words, i: int) {
    && |p| == |before| == |key| == P_WORDS && 0 <= i <= P_WORDS
    && (forall k :: 0 <= k < i ==> p[k] == Xor(before[k], key[k]))
    && (forall k :: i <= k < P_WORDS ==> p[k] == before[k])
  }

  /** One word of P is mixed. */
  method MixWord(p: array<Word>, i: nat, x: Word, ghost before: Words, ghost key: Words)
    requires p.Length == P_WORDS && i < P_WORDS && MixedUpTo(p[..], before, key, i) && key[i] == x
    modifies p
    ensures MixedUpTo(p[..], before, key, i + 1)
  {
    hide Xor;
    p[i] := Xor(p[i], x);
  }

  /** The loop that mixes the expanded key into P, two words at a time. */
  method MixKey(c: Ctx, key: array<Word>)
    requires c.Valid() && key.Length == P_WORDS && key != c.P && key != c.S
    modifies c.P
    ensures KeyMixed(old(c.Words()), c.Words(), key[..])
    ensures c.Words() == MixP(old(c.Words()), key[..])
  {
    hide Xor, MixedUpTo, MixP, KeyMixed;
    ghost var before := c.P[..];
    var i := 0;
    NothingMixed(before, key[..]);
    while i < P_WORDS
      invariant 0 <= i <= P_WORDS && i % 2 == 0
      invariant MixedUpTo(c.P[..], before, key[..], i)
    {
      MixWord(c.P, i, key[i], before, key[..]);
      MixWord(c.P, i + 1, key[i + 1], before, key[..]);
      i := i + 2;
    }
    AllMixed(c.P[..], before, key[..], c.S[..]);
    KeyMixedIff(before + c.S[..], c.Words(), key[..]);
  }

  /** The loop that mixes the salt into P, four words at a time and two more at the end. */
  method MixSalt(c: Ctx, salt: Words)
    requires c.Valid() && |salt| == 4
    modifies c.P
    ensures SaltMixed(old(c.Words()), c.Words(), salt)
    ensures c.Words() == MixP(old(c.Words()), SaltKey(salt))
  {
    hide Xor, SaltKey, MixedUpTo, MixP, SaltMixed;
    ghost var before, key := c.P[..], SaltKey(salt);
    var i := 0;
    NothingMixed(before, key);
    while i < 16
      invariant 0 <= i <= 16 && i % 4 == 0
      invariant MixedUpTo(c.P[..], before, key, i)
    {
      SaltKeyAt(salt, i);
      MixWord(c.P, i, salt[0], before, key);
      MixWord(c.P, i + 1, salt[1], before, key);
      MixWord(c.P, i + 2, salt[2], before, key);
      MixWord(c.P, i + 3, salt[3], before, key);
      i := i + 4;
    }
    SaltKeyAt(salt, 16);
    MixWord(c.P, 16, salt[0], before, key);
    MixWord(c.P, 17, salt[1], before, key);
    AllMixed(c.P[..], before, key, c.S[..]);
    SaltMixedIff(before + c.S[..], c.Words(), salt);
  }

  lemma NothingMixed(before: Words, key: Words)
    requires |before| == |key| == P_WORDS
    ensures MixedUpTo(before, before, key, 0)
  {
  }

  lemma AllMixed(p: Words, before: Words, key: Words, s: Words)
    requires MixedUpTo(p, before, key, P_WORDS) && |s| == S_WORDS
    ensures p + s == MixP(before + s, key)
  {
    hide Xor;
  }

  lemma SaltKeyAt(salt: Words, i: nat)
    requires |salt| == 4 && i <= 16 && i % 4 == 0
    ensures SaltKey(salt)[i] == salt[0] && SaltKey(salt)[i + 1] == salt[1]
    ensures i < 16 ==> SaltKey(salt)[i + 2] == salt[2] && SaltKey(salt)[i + 3] == salt[3]
  {
  }

  /** One turn of the expensive loop: body, salt mixed in, body, left by the `done` flag. */
  method OneRound(c: Ctx, salt: Words, key: array<Word>)
    requires c.Valid() && |salt| == 4 && key.Length == P_WORDS && key != c.P && key != c.S
    modifies c.P, c.S
    ensures RoundLeads(old(c.Words()), c.Words(), salt, key[..])
    ensures c.Words() == KeyRound(old(c.Words()), salt, key[..])
  {
    hide Expand, MixP, SaltKey, RoundLeads;
    ghost var w := c.Words();
    MixKey(c, key);
    var done := false;
    while true
      invariant c.Words() == if done then MixP(Expand(MixP(w, key[..]), ZERO_SALT), SaltKey(salt)) else MixP(w, key[..])
      decreases !done
    {
      Body(c);
      if done {
        break;
      }
      done := true;
      MixSalt(c, salt);
    }
    RoundLeadsIff(w, c.Words(), salt, key[..]);
  }

  /** A 32-bit counter going down by one, with wrap-around. */
  function Decrement32(count: nat): nat {
    (count + 0xFFFF_FFFF) % 0x1_0000_0000
  }

  /** The loop of the schedule: it runs exactly 2^cost times and its 32-bit counter never wraps. */
  method RunRounds(c: Ctx, salt: Words, key: array<Word>, cost: nat)
    requires c.Valid() && |salt| == 4 && key.Length == P_WORDS && key != c.P && key != c.S && cost <= 31
    modifies c.P, c.S
    ensures c.Words() == KeyRounds(old(c.Words()), salt, key[..], Pow2(cost))
  {
    hide KeyRound, RoundLeads;
    Pow2Fits(cost);
    ghost var w := c.Words();
    var count := Pow2(cost) % 0x1_0000_0000;
    ghost var rounds := 0;
    while true
      invariant 0 < count <= Pow2(cost) && rounds == Pow2(cost) - count
      invariant c.Words() == KeyRounds(w, salt, key[..], rounds)
      decreases count
    {
      OneRound(c, salt, key);
      rounds := rounds + 1;
      ghost var before := count;
      count := Decrement32(count);
      assert count == before - 1;
      if count == 0 {
        break;
      }
    }
  }

  /** BF_crypt's schedule: the salted expansion and the rounds. */
  method RunSchedule(c: Ctx, salt: Words, key: array<Word>, cost: nat)
    requires c.Valid() && |salt| == 4 && key.Length == P_WORDS && key != c.P && key != c.S && cost <= 31
    modifies c.P, c.S
    ensures SetsUp(old(c.Words()), salt, key[..], cost, c.Words())
    ensures c.Words() == Setup(old(c.Words()), salt, key[..], cost)
  {
    hide Expand, Expands, KeyRounds, SetsUp;
    ghost var start := c.Words();
    SaltedExpansion(c, salt);
    RunRounds(c, salt, key, cost);
    SetsUpIff(start, salt, key[..], cost, c.Words());
  }

  // ---------------------------------------------------------------------------
  // The output
  // ---------------------------------------------------------------------------

  /** "OrpheanBeholderScryDoubt" as big-endian words. */
  const MAGIC: Words := [0x4F727068, 0x65616E42, 0x65686F6C, 0x64657253, 0x63727944, 0x6F756274]

  /** A block encrypted n times over. */
  function Times(w: Words, b: Block, n: nat): Block
    requires |w| == CTX_WORDS
  {
    if n == 0 then b else Enc(w, Times(w, b, n - 1))
  }

  /** The three magic blocks, each encrypted 64 times. */
  function Ciphertext(w: Words): (out: Words)
    requires |w| == CTX_WORDS
    ensures |out| == 6
  {
    var b0, b1, b2 := Times(w, Block(MAGIC[0], MAGIC[1]), 64), Times(w, Block(MAGIC[2], MAGIC[3]), 64),
                      Times(w, Block(MAGIC[4], MAGIC[5]), 64);
    [b0.l, b0.r, b1.l, b1.r, b2.l, b2.r]
  }

  /** Sixty-five blocks, each the encipherment of the one before. */
  ghost predicate RepeatHistory(t: seq<Block>, w: Words, b: Block, r: Block)
    requires |w| == 1042
  {
    |t| == 65 && t[0] == b && t[64] == r && forall n :: 0 <= n < 64 ==> Enciphers(w[..18], w[18..], t[n], t[n + 1])
  }

  ghost predicate Repeats(w: Words, b: Block, r: Block)
    requires |w| == 1042
  {
    exists t :: RepeatHistory(t, w, b, r)
  }

  lemma {:induction false} RepeatsIsTimes(w: Words, t: seq<Block>, b: Block, r: Block, n: nat)
    requires |w| == CTX_WORDS && RepeatHistory(t, w, b, r) && n <= 64
    ensures t[n] == Times(w, b, n)
  {
    hide Enciphers, Encrypt;
    if n > 0 {
      RepeatsIsTimes(w, t, b, r, n - 1);
      EnciphersIff(w[..P_WORDS], w[P_WORDS..], t[n - 1], t[n]);
    }
  }

  lemma TimesHasHistory(w: Words, b: Block) returns (t: seq<Block>)
    requires |w| == CTX_WORDS
    ensures RepeatHistory(t, w, b, Times(w, b, 64))
  {
    hide Enciphers, Encrypt;
    t := seq(65, i requires 0 <= i < 65 => Times(w, b, i));
    forall n | 0 <= n < 64 ensures Enciphers(w[..18], w[18..], t[n], t[n + 1]) {
      EnciphersIff(w[..P_WORDS], w[P_WORDS..], t[n], t[n + 1]);
    }
    TimesNone(w, b);
  }

  lemma TimesNone(w: Words, b: Block)
    requires |w| == CTX_WORDS
    ensures Times(w, b, 0) == b
  {
  }

  lemma RepeatsIff(w: Words, b: Block, r: Block)
    requires |w| == CTX_WORDS
    ensures Repeats(w, b, r) <==> r == Times(w, b, 64)
  {
    hide Times;
    var t := TimesHasHistory(w, b);
    if Repeats(w, b, r) {
      var u: seq<Block> :| RepeatHistory(u, w, b, r);
      RepeatsIsTimes(w, u, b, r, 64);
    }
  }

  method Encrypt64(c: Ctx, l: Word, r: Word) returns (L: Word, R: Word)
    requires c.Valid()
    ensures Repeats(c.Words(), Block(l, r), Block(L, R))
    ensures Block(L, R) == Times(c.Words(), Block(l, r), 64)
  {
    hide Enc, Encrypt, Repeats;
    L, R := l, r;
    var count := 64;
    while true
      invariant 0 < count <= 64 && Block(L, R) == Times(c.Words(), Block(l, r), 64 - count)
      decreases count
    {
      EncIsEncrypt(c, Block(L, R));
      L, R := c.EncryptBlock(L, R);
      count := count - 1;
      if count == 0 {
        break;
      }
    }
    RepeatsIff(c.Words(), Block(l, r), Block(L, R));
  }

  method MagicOutput(c: Ctx, output: array<Word>)
    requires c.Valid() && output.Length == 6 && output != c.P && output != c.S
    modifies output
    ensures Repeats(c.Words(), Block(0x4F727068, 0x65616E42), Block(output[0], output[1]))
    ensures Repeats(c.Words(), Block(0x65686F6C, 0x64657253), Block(output[2], output[3]))
    ensures Repeats(c.Words(), Block(0x63727944, 0x6F756274), Block(output[4], output[5]))
    ensures output[..] == Ciphertext(c.Words())
  {
    hide Times, Repeats;
    var i := 0;
    while i < 6
      invariant 0 <= i <= 6 && i % 2 == 0
      invariant forall k :: 0 <= k < i ==> output[k] == Ciphertext(c.Words())[k]
    {
      var L, R := Encrypt64(c, MAGIC[i], MAGIC[i + 1]);
      output[i] := L;
      output[i + 1] := R;
      i := i + 2;
    }
    RepeatsIff(c.Words(), Block(0x4F727068, 0x65616E42), Block(output[0], output[1]));
    RepeatsIff(c.Words(), Block(0x65686F6C, 0x64657253), Block(output[2], output[3]));
    RepeatsIff(c.Words(), Block(0x63727944, 0x6F756274), Block(output[4], output[5]));
  }
}

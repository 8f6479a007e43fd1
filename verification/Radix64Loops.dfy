/** BF_encode and BF_decode as the source writes them: pointer loops that leave at a partial group. */
module Radix64Loops {
  import opened Prelude
  import opened Radix64

  /** The group at sptr: three bytes, or what is left. */
  function Group(src: Bytes, sptr: nat, size: nat): Bytes
    requires sptr <= size <= |src|
  {
    src[sptr..if size - sptr < 3 then size else sptr + 3]
  }

  lemma EncodeStep(src: Bytes, sptr: nat, size: nat)
    requires sptr < size <= |src|
    ensures var next := sptr + |Group(src, sptr, size)|;
            && Encode(src[sptr..size]) == Encode(Group(src, sptr, size)) + Encode(src[next..size])
            && Chars(size - sptr) == Chars(|Group(src, sptr, size)|) + Chars(size - next)
  {
    var x := src[sptr..size];
    if |x| >= 3 {
      assert x[3..] == src[sptr + 3..size];
      assert Group(src, sptr, size) == [x[0], x[1], x[2]];
      assert [x[0], x[1], x[2]][3..] == [];
    } else {
      assert Group(src, sptr, size) == x;
      assert src[size..size] == [];
    }
  }

  /** *dptr++ = v */
  method Put(dst: array<bv8>, dptr: nat, v: bv8, ghost before: Bytes, ghost at: nat, ghost text: Bytes)
    returns (dptr': nat, ghost text': Bytes)
    requires at + |text| == dptr < dst.Length == |before| && dst[..] == Patched(before, at, text)
    modifies dst
    ensures text' == text + [v] && dptr' == at + |text'| && dst[..] == Patched(before, at, text')
  {
    text' := text + [v];
    dst[dptr] := v;
    dptr' := dptr + 1;
    assert dst[..] == Patched(before, at, text)[dptr := v];
  }

  lemma Snoc2(text: Bytes, a: bv8, b: bv8)
    ensures text + [a] + [b] == text + [a, b]
  {
  }

  lemma Snoc3(text: Bytes, a: bv8, b: bv8, c: bv8)
    ensures text + [a] + [b] + [c] == text + [a, b, c]
  {
    Snoc2(text, a, b);
    assert text + [a, b] + [c] == text + [a, b, c];
  }

  lemma Snoc4(text: Bytes, a: bv8, b: bv8, c: bv8, d: bv8)
    ensures text + [a] + [b] + [c] + [d] == text + [a, b, c, d]
  {
    Snoc3(text, a, b, c);
    assert text + [a, b, c] + [d] == text + [a, b, c, d];
  }

  lemma WroteOne(text: Bytes, a: bv8)
    ensures text + [Itoa64(a >> 2)] + [Itoa64((a & 0x03) << 4)] == text + Encode([a])
  {
    Snoc2(text, Itoa64(a >> 2), Itoa64((a & 0x03) << 4));
  }

  lemma WroteTwo(text: Bytes, a: bv8, b: bv8)
    ensures text + [Itoa64(a >> 2)] + [Itoa64(((a & 0x03) << 4) | (b >> 4))] + [Itoa64((b & 0x0F) << 2)] ==
            text + Encode([a, b])
  {
    Snoc3(text, Itoa64(a >> 2), Itoa64(((a & 0x03) << 4) | (b >> 4)), Itoa64((b & 0x0F) << 2));
  }

  lemma WroteThree(text: Bytes, a: bv8, b: bv8, c: bv8)
    ensures text + [Itoa64(a >> 2)] + [Itoa64(((a & 0x03) << 4) | (b >> 4))]
            + [Itoa64(((b & 0x0F) << 2) | (c >> 6))] + [Itoa64(c & 0x3F)] == text + Encode([a, b, c])
  {
    Snoc4(text, Itoa64(a >> 2), Itoa64(((a & 0x03) << 4) | (b >> 4)), Itoa64(((b & 0x0F) << 2) | (c >> 6)), Itoa64(c & 0x3F));
    assert [a, b, c][3..] == [];
  }

  /** The loop body: one to three bytes become two to four characters. */
  method EncodeGroup(dst: array<bv8>, dptr: nat, src: Bytes, sptr: nat, size: nat,
                     ghost before: Bytes, ghost at: nat, ghost text: Bytes)
    returns (dptr': nat, ghost text': Bytes)
    requires sptr < size <= |src| && dptr + Chars(|Group(src, sptr, size)|) <= dst.Length == |before|
    requires at + |text| == dptr && dst[..] == Patched(before, at, text)
    modifies dst
    ensures text' == text + Encode(Group(src, sptr, size))
    ensures dptr' == at + |text'| <= |before| && dst[..] == Patched(before, at, text')
  {
    var c1 := src[sptr];
    dptr', text' := Put(dst, dptr, Itoa64(c1 >> 2), before, at, text);
    c1 := (c1 & 0x03) << 4;
    if sptr + 1 >= size {
      dptr', text' := Put(dst, dptr', Itoa64(c1), before, at, text');
      assert Group(src, sptr, size) == [src[sptr]];
      WroteOne(text, src[sptr]);
    } else {
      dptr', text' := EncodeSecond(dst, dptr', c1, src, sptr, size, before, at, text, text');
    }
  }

  /** The loop body from its second byte on; c1 carries the first byte's low bits. */
  method EncodeSecond(dst: array<bv8>, dptr: nat, carry: bv8, src: Bytes, sptr: nat, size: nat,
                      ghost before: Bytes, ghost at: nat, ghost text0: Bytes, ghost text: Bytes)
    returns (dptr': nat, ghost text': Bytes)
    requires sptr + 1 < size <= |src| && dptr + |Group(src, sptr, size)| <= dst.Length == |before|
    requires carry == (src[sptr] & 0x03) << 4 && text == text0 + [Itoa64(src[sptr] >> 2)]
    requires at + |text| == dptr && dst[..] == Patched(before, at, text)
    modifies dst
    ensures text' == text0 + Encode(Group(src, sptr, size))
    ensures dptr' == at + |text'| <= |before| && dst[..] == Patched(before, at, text')
  {
    var c2 := src[sptr + 1];
    var c1 := carry | (c2 >> 4);
    dptr', text' := Put(dst, dptr, Itoa64(c1), before, at, text);
    c1 := (c2 & 0x0F) << 2;
    if sptr + 2 >= size {
      dptr', text' := EndAtTwo(dst, dptr', c1, src, sptr, size, before, at, text0, text');
    } else {
      dptr', text' := EncodeThird(dst, dptr', c1, src, sptr, size, before, at, text0, text');
    }
  }

  /** The text ends after the second byte of a group. */
  method EndAtTwo(dst: array<bv8>, dptr: nat, c1: bv8, ghost src: Bytes, ghost sptr: nat, ghost size: nat,
                  ghost before: Bytes, ghost at: nat, ghost text0: Bytes, ghost text: Bytes)
    returns (dptr': nat, ghost text': Bytes)
    requires sptr + 2 == size <= |src| && dptr < dst.Length == |before|
    requires c1 == (src[sptr + 1] & 0x0F) << 2
    requires text == text0 + [Itoa64(src[sptr] >> 2)] + [Itoa64(((src[sptr] & 0x03) << 4) | (src[sptr + 1] >> 4))]
    requires at + |text| == dptr && dst[..] == Patched(before, at, text)
    modifies dst
    ensures text' == text0 + Encode(Group(src, sptr, size))
    ensures dptr' == at + |text'| <= |before| && dst[..] == Patched(before, at, text')
  {
    dptr', text' := Put(dst, dptr, Itoa64(c1), before, at, text);
    assert Group(src, sptr, size) == [src[sptr], src[sptr + 1]];
    WroteTwo(text0, src[sptr], src[sptr + 1]);
  }

  /** The loop body from its third byte on. */
  method EncodeThird(dst: array<bv8>, dptr: nat, carry: bv8, src: Bytes, sptr: nat, size: nat,
                     ghost before: Bytes, ghost at: nat, ghost text0: Bytes, ghost text: Bytes)
    returns (dptr': nat, ghost text': Bytes)
    requires sptr + 2 < size <= |src| && dptr + 2 <= dst.Length == |before|
    requires carry == (src[sptr + 1] & 0x0F) << 2
    requires text == text0 + [Itoa64(src[sptr] >> 2)] + [Itoa64(((src[sptr] & 0x03) << 4) | (src[sptr + 1] >> 4))]
    requires at + |text| == dptr && dst[..] == Patched(before, at, text)
    modifies dst
    ensures text' == text0 + Encode(Group(src, sptr, size))
    ensures dptr' == at + |text'| <= |before| && dst[..] == Patched(before, at, text')
  {
    var c2 := src[sptr + 2];
    var c1 := carry | (c2 >> 6);
    dptr', text' := Put(dst, dptr, Itoa64(c1), before, at, text);
    dptr', text' := Put(dst, dptr', Itoa64(c2 & 0x3F), before, at, text');
    assert Group(src, sptr, size) == [src[sptr], src[sptr + 1], c2];
    WroteThree(text0, src[sptr], src[sptr + 1], c2);
  }

  method BFEncode(dst: array<bv8>, at: nat, src: Bytes, size: nat)
    requires 0 < size <= |src| && at + Chars(size) <= dst.Length
    modifies dst
    ensures dst[..] == Patched(old(dst[..]), at, Encode(src[..size]))
  {
    var sptr, dptr := 0, at;
    ghost var before, text: Bytes := dst[..], [];
    assert src[0..size] == src[..size];
    while true
      invariant sptr < size && dptr == at + |text| <= |before| && dptr + Chars(size - sptr) <= |before|
      invariant dst[..] == Patched(before, at, text)
      invariant Encode(src[..size]) == text + Encode(src[sptr..size])
      decreases size - sptr
    {
      EncodeStep(src, sptr, size);
      Regroup(text, Encode(Group(src, sptr, size)), Encode(src[sptr + |Group(src, sptr, size)|..size]));
      dptr, text := EncodeGroup(dst, dptr, src, sptr, size, before, at, text);
      sptr := if size - sptr < 3 then size else sptr + 3;
      if sptr >= size {
        break;
      }
    }
  }

  /** The result of decoding when `done` is decoded already. */
  function Prepend(done: Bytes, r: Option<Bytes>): Option<Bytes> {
    match r case None => None case Some(rest) => Some(done + rest)
  }

  lemma PrependTwice(a: Bytes, b: Bytes, r: Option<Bytes>)
    ensures Prepend(a, Prepend(b, r)) == Prepend(a + b, r)
    ensures Prepend([], r) == r
  {
    if r.Some? {
      assert a + (b + r.value) == (a + b) + r.value;
      assert [] + r.value == r.value;
    }
  }

  /** The loop body: two to four characters become one to three bytes; -1 at a bad character. */
  method DecodeGroup(dst: array<bv8>, dptr: nat, t: Bytes, sptr: nat, size: nat, ghost before: Bytes, ghost done: Bytes)
    returns (ret: int, dptr': nat, ghost done': Bytes)
    requires |done| == dptr < size <= dst.Length == |before| && dst[..] == Patched(before, 0, done)
    modifies dst
    ensures ret == 0 || ret == -1
    ensures ret == -1 ==> Decode(t, sptr, size - dptr) == None
    ensures ret == 0 ==>
              && dptr < dptr' == |done'| <= size && dst[..] == Patched(before, 0, done')
              && Prepend(done, Decode(t, sptr, size - dptr)) == Prepend(done', Decode(t, sptr + 4, size - dptr'))
  {
    dptr', done' := dptr, done;
    var c1 := Atoi64(At(t, sptr));
    if c1 > 63 { return -1, dptr', done'; }
    var c2 := Atoi64(At(t, sptr + 1));
    if c2 > 63 { return -1, dptr', done'; }
    dptr', done' := Put(dst, dptr, (c1 << 2) | ((c2 & 0x30) >> 4), before, 0, done);
    if dptr' >= size {
      ret := 0;
      assert done' + [] == done';
    } else {
      ret, dptr', done' := DecodeSecond(dst, dptr', c1, c2, t, sptr, size, before, done, done');
    }
  }

  method DecodeSecond(dst: array<bv8>, dptr: nat, c1: bv8, c2: bv8, t: Bytes, sptr: nat, size: nat,
                      ghost before: Bytes, ghost done0: Bytes, ghost done: Bytes)
    returns (ret: int, dptr': nat, ghost done': Bytes)
    requires |done0| + 1 == |done| == dptr < size <= dst.Length == |before|
    requires dst[..] == Patched(before, 0, done)
    requires c1 == Atoi64(At(t, sptr)) && c2 == Atoi64(At(t, sptr + 1)) && c1 < 64 && c2 < 64
    requires done == done0 + [B0(c1, c2)]
    modifies dst
    ensures ret == 0 || ret == -1
    ensures ret == -1 ==> Decode(t, sptr, size - |done0|) == None
    ensures ret == 0 ==>
              && dptr < dptr' == |done'| <= size && dst[..] == Patched(before, 0, done')
              && Prepend(done0, Decode(t, sptr, size - |done0|)) == Prepend(done', Decode(t, sptr + 4, size - dptr'))
  {
    dptr', done' := dptr, done;
    var c3 := Atoi64(At(t, sptr + 2));
    if c3 > 63 { return -1, dptr', done'; }
    dptr', done' := Put(dst, dptr, ((c2 & 0x0F) << 4) | ((c3 & 0x3C) >> 2), before, 0, done);
    if dptr' >= size {
      ret := 0;
      Snoc2(done0, B0(c1, c2), B1(c2, c3));
      assert done' + [] == done';
    } else {
      ret, dptr', done' := DecodeThird(dst, dptr', c1, c2, c3, t, sptr, size, before, done0, done');
    }
  }

  method DecodeThird(dst: array<bv8>, dptr: nat, ghost c1: bv8, ghost c2: bv8, c3: bv8, t: Bytes, sptr: nat, size: nat,
                     ghost before: Bytes, ghost done0: Bytes, ghost done: Bytes)
    returns (ret: int, dptr': nat, ghost done': Bytes)
    requires |done0| + 2 == |done| == dptr < size <= dst.Length == |before|
    requires dst[..] == Patched(before, 0, done)
    requires c1 == Atoi64(At(t, sptr)) && c2 == Atoi64(At(t, sptr + 1)) && c3 == Atoi64(At(t, sptr + 2))
    requires c1 < 64 && c2 < 64 && c3 < 64
    requires done == done0 + [B0(c1, c2)] + [B1(c2, c3)]
    modifies dst
    ensures ret == 0 || ret == -1
    ensures ret == -1 ==> Decode(t, sptr, size - |done0|) == None
    ensures ret == 0 ==>
              && dptr < dptr' == |done'| <= size && dst[..] == Patched(before, 0, done')
              && Prepend(done0, Decode(t, sptr, size - |done0|)) == Prepend(done', Decode(t, sptr + 4, size - dptr'))
  {
    dptr', done' := dptr, done;
    var c4 := Atoi64(At(t, sptr + 3));
    if c4 > 63 { return -1, dptr', done'; }
    dptr', done' := Put(dst, dptr, ((c3 & 0x03) << 6) | c4, before, 0, done);
    ret := 0;
    Snoc3(done0, B0(c1, c2), B1(c2, c3), B2(c3, c4));
    PrependTwice(done0, [B0(c1, c2), B1(c2, c3), B2(c3, c4)], Decode(t, sptr + 4, size - dptr'));
  }

  /** BF_decode: 0 with the bytes in the buffer, or -1 at the first character outside the alphabet. */
  method BFDecode(dst: array<bv8>, t: Bytes, i: nat, size: nat) returns (ret: int)
    requires 0 < size <= dst.Length
    modifies dst
    ensures ret == 0 || ret == -1
    ensures ret == 0 <==> Decode(t, i, size).Some?
    ensures ret == 0 ==> dst[..] == Patched(old(dst[..]), 0, Decode(t, i, size).value)
  {
    var dptr, sptr := 0, i;
    ghost var before, done: Bytes := dst[..], [];
    PrependTwice([], [], Decode(t, i, size));
    while true
      invariant dptr == |done| < size && dst[..] == Patched(before, 0, done)
      invariant Decode(t, i, size) == Prepend(done, Decode(t, sptr, size - dptr))
      decreases size - dptr
    {
      ret, dptr, done := DecodeGroup(dst, dptr, t, sptr, size, before, done);
      if ret == -1 {
        return;
      }
      sptr := sptr + 4;
      if dptr >= size {
        break;
      }
    }
    assert done + [] == done;
    return 0;
  }
}

/**
 * Resumable transfer: the receiver reports its length rounded down to a page, enlarges the file to
 * its full size, and maps and fills it chunk by chunk; the sender sends the rest from there. The
 * upload loop (recv_file) and the download loop (gets_File) are the same.
 */
module Transfer {
  import opened Prelude

  type Bytes = seq<bv8>

  const BUFFER_SIZE := 4096

  function Zeros(n: nat): (z: Bytes)
    ensures |z| == n
  {
    seq(n, _ => 0)
  }

  /** ftruncate: cut, or extend with zero bytes. */
  function Truncated(file: Bytes, size: nat): (r: Bytes)
    ensures |r| == size
  {
    if |file| >= size then file[..size] else file + Zeros(size - |file|)
  }

  /** The offset from which a transfer resumes: the length rounded down to a page. */
  function ResumeAt(len: nat, page: nat): (offset: nat)
    requires page > 0
    ensures offset <= len < offset + page && offset % page == 0
  {
    RoundedDown(len, page);
    len / page * page
  }

  lemma RoundedDown(len: nat, page: nat)
    requires page > 0
    ensures (len / page * page) % page == 0
  {
    var k := len / page * page;
    var d := len / page - k / page;
    assert k % page == d * page;
    Multiples(d, page);
  }

  function Min(a: nat, b: nat): nat {
    if a < b then a else b
  }

  /** Where a session stands: the file, how far it is filled, and what is still to be received. */
  datatype Session = Session(file: Bytes, offset: nat, stream: Bytes)

  /** The number of bytes one read returns, and how many of them are used. */
  function Arrives(s: Session, size: nat): nat {
    Min(Min(size, BUFFER_SIZE), |s.stream|)
  }

  function Used(s: Session, size: nat): (n: nat)
    requires s.offset <= |s.file|
    ensures n <= Arrives(s, size) && s.offset + n <= |s.file|
  {
    Min(Arrives(s, size), |s.file| - s.offset)
  }

  /** The loop ends when the file is full, the reads end or return nothing, or mmap rejects the offset. */
  predicate Stops(s: Session, sizes: seq<nat>, page: nat)
    requires page > 0
  {
    s.offset >= |s.file| || sizes == [] || Arrives(s, sizes[0]) == 0 || s.offset % page != 0
  }

  /** One turn: a chunk is copied in at the offset. */
  function Turn(s: Session, size: nat): (t: Session)
    requires s.offset <= |s.file|
    ensures t.offset <= |t.file| == |s.file|
  {
    var n := Used(s, size);
    Session(Patched(s.file, s.offset, s.stream[..n]), s.offset + n, s.stream[Arrives(s, size)..])
  }

  /** The whole loop, for the sizes that successive reads are ready to return. */
  function Received(s: Session, sizes: seq<nat>, page: nat): (r: Session)
    requires page > 0 && s.offset <= |s.file|
    ensures |r.file| == |s.file| && s.offset <= r.offset <= |r.file|
    decreases |sizes|
  {
    if Stops(s, sizes, page) then s else Received(Turn(s, sizes[0]), sizes[1..], page)
  }

  // ---------------------------------------------------------------------------
  // One session
  // ---------------------------------------------------------------------------

  lemma PatchTwice(file: Bytes, offset: nat, a: Bytes, b: Bytes)
    requires offset + |a| + |b| <= |file|
    ensures Patched(Patched(file, offset, a), offset + |a|, b) == Patched(file, offset, a + b)
  {
    var once := Patched(file, offset, a);
    assert once[..offset + |a|] == file[..offset] + a;
    assert once[offset + |a| + |b|..] == file[offset + |a| + |b|..];
    assert file[..offset] + a + b == file[..offset] + (a + b);
  }

  lemma PatchNothing(file: Bytes, offset: nat)
    requires offset <= |file|
    ensures Patched(file, offset, []) == file
  {
  }

  /** For any chunking: the filled part is the beginning of the stream, and nothing else changes. */
  lemma {:induction false} ReceivedIsStream(s: Session, sizes: seq<nat>, page: nat)
    requires page > 0 && s.offset <= |s.file|
    ensures var r := Received(s, sizes, page);
            && r.offset - s.offset <= |s.stream|
            && r.file == Patched(s.file, s.offset, s.stream[..r.offset - s.offset])
    decreases |sizes|
  {
    hide Patched;
    var r := Received(s, sizes, page);
    if Stops(s, sizes, page) {
      PatchNothing(s.file, s.offset);
    } else {
      var t := Turn(s, sizes[0]);
      ReceivedIsStream(t, sizes[1..], page);
      if t.offset < |t.file| {
        var a, b := s.stream[..Used(s, sizes[0])], t.stream[..r.offset - t.offset];
        PatchTwice(s.file, s.offset, a, b);
        assert a + b == s.stream[..r.offset - s.offset];
      }
    }
  }

  /** The bytes that the first k reads deliver, from a stream with so many bytes. */
  function Got(available: nat, sizes: seq<nat>, k: nat): (n: nat)
    requires k <= |sizes|
    ensures n <= available
  {
    if k == 0 then 0
    else var n := Got(available, sizes, k - 1); n + Min(Min(sizes[k - 1], BUFFER_SIZE), available - n)
  }

  /** Dropping the first read shifts the count. */
  lemma {:induction false} GotShift(available: nat, sizes: seq<nat>, k: nat)
    requires k < |sizes|
    ensures var first := Got(available, sizes, 1);
            Got(available, sizes, k + 1) == first + Got(available - first, sizes[1..], k)
  {
    if k > 0 {
      GotShift(available, sizes, k - 1);
    }
  }

  /** Read j happens below the need, delivers something, and finds the offset on a page boundary. */
  predicate Proceeds(offset: nat, need: nat, available: nat, sizes: seq<nat>, page: nat, j: nat)
    requires page > 0 && j < |sizes|
  {
    var n := Got(available, sizes, j);
    n < need && n < Got(available, sizes, j + 1) && (offset + n) % page == 0
  }

  /** The first k reads cover the need, and every one of them proceeds. */
  ghost predicate Covers(offset: nat, need: nat, available: nat, sizes: seq<nat>, page: nat, k: nat)
    requires page > 0 && k <= |sizes|
  {
    Got(available, sizes, k) >= need && forall j :: 0 <= j < k ==> Proceeds(offset, need, available, sizes, page, j)
  }

  ghost predicate SomeCover(offset: nat, need: nat, available: nat, sizes: seq<nat>, page: nat)
    requires page > 0
  {
    exists k :: 0 <= k <= |sizes| && Covers(offset, need, available, sizes, page, k)
  }

  /**
   * For all sizes of reads: the file is completed exactly when some number of reads covers what is
   * missing and each of them starts at a page boundary and delivers something.
   */
  lemma {:induction false} CompletesIff(s: Session, sizes: seq<nat>, page: nat)
    requires page > 0 && s.offset <= |s.file|
    ensures Received(s, sizes, page).offset == |s.file|
            <==> SomeCover(s.offset, |s.file| - s.offset, |s.stream|, sizes, page)
    decreases |sizes|
  {
    hide Patched, Got;
    var need, available := |s.file| - s.offset, |s.stream|;
    GotNothing(available, sizes);
    if need == 0 {
      assert Covers(s.offset, need, available, sizes, page, 0);
    } else if sizes == [] {
      assert !Covers(s.offset, need, available, sizes, page, 0);
    } else {
      GotFirst(available, sizes);
      if Stops(s, sizes, page) {
        assert !Proceeds(s.offset, need, available, sizes, page, 0);
        forall k | 0 <= k <= |sizes| ensures !Covers(s.offset, need, available, sizes, page, k) {}
      } else {
        assert Proceeds(s.offset, need, available, sizes, page, 0);
        var t := Turn(s, sizes[0]);
        if t.offset == |t.file| {
          assert Covers(s.offset, need, available, sizes, page, 1);
        } else {
          CompletesIff(t, sizes[1..], page);
          CoverShift(s.offset, need, available, sizes, page);
        }
      }
    }
  }

  lemma GotNothing(available: nat, sizes: seq<nat>)
    ensures Got(available, sizes, 0) == 0
  {
  }

  lemma GotFirst(available: nat, sizes: seq<nat>)
    requires sizes != []
    ensures Got(available, sizes, 1) == Min(Min(sizes[0], BUFFER_SIZE), available)
  {
    assert Got(available, sizes, 0) == 0;
  }

  lemma ProceedsShift(offset: nat, need: nat, available: nat, sizes: seq<nat>, page: nat, j: nat)
    requires page > 0 && 0 < j < |sizes| && Got(available, sizes, 1) < need
    ensures var first := Got(available, sizes, 1);
            Proceeds(offset, need, available, sizes, page, j)
            <==> Proceeds(offset + first, need - first, available - first, sizes[1..], page, j - 1)
  {
    hide Got;
    GotShift(available, sizes, j - 1);
    GotShift(available, sizes, j);
  }

  lemma CoversShift(offset: nat, need: nat, available: nat, sizes: seq<nat>, page: nat, k: nat)
    requires page > 0 && 0 < k <= |sizes| && Proceeds(offset, need, available, sizes, page, 0)
    requires Got(available, sizes, 1) < need
    ensures var first := Got(available, sizes, 1);
            Covers(offset, need, available, sizes, page, k)
            <==> Covers(offset + first, need - first, available - first, sizes[1..], page, k - 1)
  {
    hide Got, Proceeds;
    var first := Got(available, sizes, 1);
    var offset', need', available', rest := offset + first, need - first, available - first, sizes[1..];
    GotShift(available, sizes, k - 1);
    forall i | 0 <= i < k - 1
      ensures Proceeds(offset, need, available, sizes, page, i + 1)
              <==> Proceeds(offset', need', available', rest, page, i)
    {
      ProceedsShift(offset, need, available, sizes, page, i + 1);
    }
    if Covers(offset', need', available', rest, page, k - 1) {
      forall j | 0 <= j < k ensures Proceeds(offset, need, available, sizes, page, j) {
        if j > 0 {
          assert Proceeds(offset', need', available', rest, page, j - 1);
        }
      }
    }
    if Covers(offset, need, available, sizes, page, k) {
      forall i | 0 <= i < k - 1 ensures Proceeds(offset', need', available', rest, page, i) {
        assert Proceeds(offset, need, available, sizes, page, i + 1);
      }
    }
  }

  /** After a first read that proceeds but does not cover the need, the rest is the same question. */
  lemma CoverShift(offset: nat, need: nat, available: nat, sizes: seq<nat>, page: nat)
    requires page > 0 && sizes != [] && Proceeds(offset, need, available, sizes, page, 0)
    requires Got(available, sizes, 1) < need
    ensures var first := Got(available, sizes, 1);
            SomeCover(offset, need, available, sizes, page)
            <==> SomeCover(offset + first, need - first, available - first, sizes[1..], page)
  {
    hide Got, Proceeds, Covers;
    var first := Got(available, sizes, 1);
    NoneCovers(offset, need, available, sizes, page);
    if SomeCover(offset, need, available, sizes, page) {
      var k :| 0 <= k <= |sizes| && Covers(offset, need, available, sizes, page, k);
      CoversShift(offset, need, available, sizes, page, k);
    }
    if SomeCover(offset + first, need - first, available - first, sizes[1..], page) {
      var k :| 0 <= k <= |sizes| - 1 && Covers(offset + first, need - first, available - first, sizes[1..], page, k);
      CoversShift(offset, need, available, sizes, page, k + 1);
    }
  }

  lemma NoneCovers(offset: nat, need: nat, available: nat, sizes: seq<nat>, page: nat)
    requires page > 0 && need > 0
    ensures !Covers(offset, need, available, sizes, page, 0)
  {
  }

  /** A chunk that leaves the offset unaligned and the file unfinished is the last one that is taken. */
  lemma UnalignedStalls(s: Session, sizes: seq<nat>, page: nat)
    requires page > 0 && s.offset <= |s.file| && !Stops(s, sizes, page)
    requires (s.offset + Arrives(s, sizes[0])) % page != 0 && s.offset + Arrives(s, sizes[0]) < |s.file|
    ensures Received(s, sizes, page).offset == s.offset + Arrives(s, sizes[0])
  {
    assert Stops(Turn(s, sizes[0]), sizes[1..], page);
  }

  /** With full reads at page boundaries, a sender that sends enough completes the file. */
  lemma {:induction false} AlignedCompletes(s: Session, sizes: seq<nat>, page: nat)
    requires page > 0 && BUFFER_SIZE % page == 0 && s.offset <= |s.file| && s.offset % page == 0
    requires forall i :: 0 <= i < |sizes| ==> sizes[i] >= BUFFER_SIZE
    requires |s.stream| == |s.file| - s.offset <= BUFFER_SIZE * |sizes|
    ensures Received(s, sizes, page).offset == |s.file|
    decreases |sizes|
  {
    if s.offset < |s.file| {
      var t := Turn(s, sizes[0]);
      if t.offset < |t.file| {
        AlignedSum(s.offset, BUFFER_SIZE, page);
        AlignedCompletes(t, sizes[1..], page);
      }
    }
  }

  /** In numbers: with pages of 4096 bytes, reads that are ready to return 4096 bytes or more complete every upload. */
  lemma PageReadsComplete(file: Bytes, source: Bytes, sizes: seq<nat>)
    requires ResumeAt(|file|, 4096) <= |source| && |source| <= ResumeAt(|file|, 4096) + 4096 * |sizes|
    requires forall i :: 0 <= i < |sizes| ==> sizes[i] >= 4096
    ensures Resume(file, source, sizes, 4096).offset == |source|
  {
    var start := ResumeAt(|file|, 4096);
    AlignedCompletes(Session(Truncated(file, |source|), start, source[start..]), sizes, 4096);
  }

  lemma AlignedSum(a: nat, b: nat, page: nat)
    requires page > 0 && a % page == 0 && b % page == 0
    ensures (a + b) % page == 0
  {
    var d := a / page + b / page - (a + b) / page;
    assert (a + b) % page == d * page by {
      assert d * page == a / page * page + b / page * page - (a + b) / page * page;
    }
    Multiples(d, page);
  }

  lemma Multiples(d: int, m: nat)
    ensures d >= 1 ==> d * m >= m
    ensures d <= -1 ==> d * m + m <= 0
  {
    if d >= 1 {
      assert d * m == m + (d - 1) * m;
    } else if d <= -1 {
      assert d * m + m == (d + 1) * m;
    }
  }

  /** A session resumed on what the receiver has, with a sender that sends the rest of the source. */
  function Resume(file: Bytes, source: Bytes, sizes: seq<nat>, page: nat): (r: Session)
    requires page > 0
    ensures |r.file| == |source|
  {
    var offset := ResumeAt(|file|, page);
    var full := Truncated(file, |source|);
    if offset > |source| then Session(full, offset, [])
    else Received(Session(full, offset, source[offset..]), sizes, page)
  }

  /** An upload is marked complete exactly when it starts within the source and its reads cover the rest. */
  lemma ResumeCompletesIff(file: Bytes, source: Bytes, sizes: seq<nat>, page: nat)
    requires page > 0
    ensures var start := ResumeAt(|file|, page);
            Resume(file, source, sizes, page).offset == |source|
            <==> start <= |source| && SomeCover(start, |source| - start, |source| - start, sizes, page)
  {
    hide SomeCover, ResumeAt;
    var start := ResumeAt(|file|, page);
    if start <= |source| {
      CompletesIff(Session(Truncated(file, |source|), start, source[start..]), sizes, page);
    }
  }

  /** What the receiver has up to the offset it resumes from is what the source has there. */
  ghost predicate TruePrefix(file: Bytes, source: Bytes, page: nat)
    requires page > 0
  {
    var offset := ResumeAt(|file|, page);
    offset <= |source| && file[..offset] == source[..offset]
  }

  /** Up to the offset reached, a session writes exactly the source; before its start it writes nothing. */
  lemma ResumeWritesSource(file: Bytes, source: Bytes, sizes: seq<nat>, page: nat)
    requires page > 0 && ResumeAt(|file|, page) <= |source|
    ensures var start := ResumeAt(|file|, page);
            var r := Resume(file, source, sizes, page);
            && start <= r.offset <= |source|
            && r.file == file[..start] + source[start..r.offset] + Truncated(file, |source|)[r.offset..]
  {
    var start := ResumeAt(|file|, page);
    var full := Truncated(file, |source|);
    var s := Session(full, start, source[start..]);
    ReceivedIsStream(s, sizes, page);
    var r := Resume(file, source, sizes, page);
    assert source[start..][..r.offset - start] == source[start..r.offset];
    assert full[..start] == file[..start];
  }

  /** A session that begins with a true prefix keeps one, whatever the chunking. */
  lemma TruePrefixKept(file: Bytes, source: Bytes, sizes: seq<nat>, page: nat)
    requires page > 0 && TruePrefix(file, source, page)
    ensures var r := Resume(file, source, sizes, page);
            r.offset <= |source| && r.file[..r.offset] == source[..r.offset]
  {
    var start := ResumeAt(|file|, page);
    var r := Resume(file, source, sizes, page);
    ResumeWritesSource(file, source, sizes, page);
    assert source[..start] + source[start..r.offset] == source[..r.offset];
    assert r.file[..r.offset] == file[..start] + source[start..r.offset];
  }

  /**
   * A session that reaches the end, after which the upload is marked complete, leaves the source in
   * the file exactly when it began with a true prefix.
   */
  lemma CompleteIsSourceIff(file: Bytes, source: Bytes, sizes: seq<nat>, page: nat)
    requires page > 0 && Resume(file, source, sizes, page).offset == |source|
    ensures Resume(file, source, sizes, page).file == source <==> TruePrefix(file, source, page)
  {
    var start := ResumeAt(|file|, page);
    var r := Resume(file, source, sizes, page);
    ResumeWritesSource(file, source, sizes, page);
    assert r.file[..start] == file[..start];
    if TruePrefix(file, source, page) {
      TruePrefixKept(file, source, sizes, page);
      assert r.file[..|source|] == r.file && source[..|source|] == source;
    }
  }

  // ---------------------------------------------------------------------------
  // Several sessions
  // ---------------------------------------------------------------------------

  /** The file after a series of sessions, each with its own reads. */
  function Sessions(file: Bytes, source: Bytes, runs: seq<seq<nat>>, page: nat): Bytes
    requires page > 0
    decreases |runs|
  {
    if runs == [] then file
    else Sessions(Resume(file, source, runs[0], page).file, source, runs[1..], page)
  }

  /** Once the file has its full size, no session touches anything before its last page boundary. */
  lemma {:induction false} HoleIsNeverFilled(file: Bytes, source: Bytes, runs: seq<seq<nat>>, page: nat)
    requires page > 0 && |file| == |source|
    ensures |Sessions(file, source, runs, page)| == |source|
    ensures var last := ResumeAt(|source|, page); Sessions(file, source, runs, page)[..last] == file[..last]
    decreases |runs|
  {
    if runs != [] {
      var last := ResumeAt(|source|, page);
      var next := Resume(file, source, runs[0], page).file;
      ResumeWritesSource(file, source, runs[0], page);
      assert next[..last] == file[..last];
      HoleIsNeverFilled(next, source, runs[1..], page);
    }
  }

  /** The part of a source that is zero anyway. */
  predicate AllZero(source: Bytes, from: nat, to: nat)
    requires to <= |source|
  {
    forall k :: from <= k < to ==> source[k] == 0
  }

  /**
   * A first session that is interrupted at some offset leaves zeros up to the full size. After any
   * further sessions, a last one that reaches the end leaves the source in the file exactly when
   * the bytes between the interruption and the last page boundary are zero in the source itself.
   */
  lemma InterruptedUploadIff(source: Bytes, first: seq<nat>, between: seq<seq<nat>>, last: seq<nat>, page: nat)
    requires page > 0
    requires Resume(Sessions(Resume([], source, first, page).file, source, between, page), source, last, page).offset == |source|
    ensures var reached := Resume([], source, first, page).offset;
            var file := Sessions(Resume([], source, first, page).file, source, between, page);
            Resume(file, source, last, page).file == source <==> AllZero(source, reached, ResumeAt(|source|, page))
  {
    var one := Resume([], source, first, page);
    var file := Sessions(one.file, source, between, page);
    var boundary := ResumeAt(|source|, page);
    ResumeWritesSource([], source, first, page);
    assert one.file == source[..one.offset] + Zeros(|source|)[one.offset..];
    HoleIsNeverFilled(one.file, source, between, page);
    CompleteIsSourceIff(file, source, last, page);
    assert file[..boundary] == one.file[..boundary];
    PrefixOfHoled(source, one.file, one.offset, boundary);
  }

  lemma PrefixOfHoled(source: Bytes, file: Bytes, reached: nat, boundary: nat)
    requires reached <= |source| && boundary <= |source|
    requires file == source[..reached] + Zeros(|source|)[reached..]
    ensures file[..boundary] == source[..boundary] <==> AllZero(source, reached, boundary)
  {
    forall k | 0 <= k < boundary ensures file[k] == if k < reached then source[k] else 0 {}
    if file[..boundary] == source[..boundary] {
      forall k | reached <= k < boundary ensures source[k] == 0 {
        assert file[..boundary][k] == source[..boundary][k];
      }
    }
  }

  /** For instance: a connection lost before any data, then a full session over the last byte only. */
  lemma LostConnectionCorrupts(page: nat)
    requires page > 0
    ensures var source := seq(page, _ => 1 as bv8) + [1];
            var holed := Resume([], source, [], page).file;
            var r := Resume(holed, source, [1], page);
            r.offset == |source| && r.file != source
  {
    var source := seq(page, _ => 1 as bv8) + [1];
    var holed := Resume([], source, [], page).file;
    assert holed == Zeros(page + 1);
    ResumeAtPage(page);
    var s := Session(Truncated(holed, page + 1), page, source[page..]);
    assert Received(s, [1], page) == Received(Turn(s, 1), [], page);
    var r := Resume(holed, source, [1], page);
    ResumeWritesSource(holed, source, [1], page);
    assert r.file[0] == holed[0] == 0;
  }

  lemma ResumeAtPage(page: nat)
    requires page > 0
    ensures page > 1 ==> ResumeAt(page + 1, page) == page
    ensures page == 1 ==> ResumeAt(page + 1, page) == page + 1
  {
  }
}

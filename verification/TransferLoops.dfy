/** The two receiving ends of a transfer on a file object: recv_file on the server, gets_File on the client. */
module TransferLoops {
  import opened Prelude
  import opened Transfer

  class DiskFile {
    var bytes: Bytes

    constructor (bytes: Bytes)
      ensures this.bytes == bytes
    {
      this.bytes := bytes;
    }

    method Truncate(size: nat)
      modifies this
      ensures bytes == Truncated(old(bytes), size)
    {
      bytes := Truncated(bytes, size);
    }

    /** mmap, memcpy, munmap: fails at an offset that is no multiple of the page size. */
    method MapAndCopy(offset: nat, chunk: Bytes, page: nat) returns (ok: bool)
      requires page > 0 && offset + |chunk| <= |bytes|
      modifies this
      ensures ok <==> offset % page == 0
      ensures bytes == if ok then Patched(old(bytes), offset, chunk) else old(bytes)
    {
      ok := offset % page == 0;
      if ok {
        bytes := Patched(bytes, offset, chunk);
      }
    }
  }

  /** The sender's end: everything from the offset the receiver reported. */
  function Sent(source: Bytes, offset: nat): Bytes {
    if offset <= |source| then source[offset..] else []
  }

  /** The receive loop of both ends. `sizes` says how much successive reads are ready to return. */
  method ReceiveLoop(f: DiskFile, start: nat, stream: Bytes, sizes: seq<nat>, page: nat) returns (offset: nat)
    requires page > 0 && start <= |f.bytes|
    modifies f
    ensures var r := Received(Session(old(f.bytes), start, stream), sizes, page);
            f.bytes == r.file && offset == r.offset
  {
    offset := start;
    var fileSize := |f.bytes|;
    var rest, left := stream, sizes;
    while offset < fileSize
      invariant |f.bytes| == fileSize && offset <= fileSize
      invariant Received(Session(f.bytes, offset, rest), left, page) ==
                Received(Session(old(f.bytes), start, stream), sizes, page)
      decreases |left|
    {
      ghost var s := Session(f.bytes, offset, rest);
      if left == [] {
        return;
      }
      ghost var size := left[0];
      var recvNum := Min(Min(left[0], BUFFER_SIZE), |rest|);
      if recvNum <= 0 {
        return;
      }
      var count := if offset + recvNum > fileSize then fileSize - offset else recvNum;
      var ok := f.MapAndCopy(offset, rest[..count], page);
      if !ok {
        return;
      }
      offset := offset + count;
      rest := rest[recvNum..];
      left := left[1..];
      assert Session(f.bytes, offset, rest) == Turn(s, size);
    }
  }

  /** recv_file: true when the offset has reached the full size, upon which query_update is called. */
  method RecvFile(f: DiskFile, source: Bytes, sizes: seq<nat>, page: nat) returns (complete: bool)
    requires page > 0
    modifies f
    ensures f.bytes == Resume(old(f.bytes), source, sizes, page).file
    ensures var start := ResumeAt(old(|f.bytes|), page);
            complete <==> start <= |source| && SomeCover(start, |source| - start, |source| - start, sizes, page)
    ensures complete ==> (f.bytes == source <==> TruePrefix(old(f.bytes), source, page))
  {
    var offset := ResumeAt(|f.bytes|, page);
    var stream := Sent(source, offset);
    f.Truncate(|source|);
    if offset <= |source| {
      offset := ReceiveLoop(f, offset, stream, sizes, page);
    }
    complete := offset == |source|;
    ResumeCompletesIff(old(f.bytes), source, sizes, page);
    if complete {
      CompleteIsSourceIff(old(f.bytes), source, sizes, page);
    }
  }

  /** gets_File: the same loop at the client; true when the whole file has arrived. */
  method GetsFile(f: DiskFile, source: Bytes, sizes: seq<nat>, page: nat) returns (arrived: bool)
    requires page > 0
    modifies f
    ensures f.bytes == Resume(old(f.bytes), source, sizes, page).file
    ensures arrived <==> Resume(old(f.bytes), source, sizes, page).offset >= |source|
  {
    var curSize := ResumeAt(|f.bytes|, page);
    var stream := Sent(source, curSize);
    f.Truncate(|source|);
    if curSize < |source| {
      curSize := ReceiveLoop(f, curSize, stream, sizes, page);
      return curSize == |source|;
    }
    arrived := true;
  }
}

/** The speed test: filling a buffer, writing a file from it in chunks, and reading it back. */
module SdSpeed {
  import opened Bytes
  import opened FileSystem

  const EINVAL: int := -22
  const ENOMEM: int := -12

  // ---- What the write loop leaves in the file --------------------------------------------------

  /** The first n bytes of the buffer. */
  function Ramp(n: nat): (r: seq<byte>)
    ensures |r| == n
  {
    seq(n, i => if 0 <= i then i % 256 else 0)
  }

  function Sum(counts: seq<nat>): nat {
    if counts == [] then 0 else Sum(counts[..|counts| - 1]) + counts[|counts| - 1]
  }

  /** Every write starts again at the front of the buffer; `counts` is how much each one stored. */
  function Written(counts: seq<nat>): (r: seq<byte>)
    ensures |r| == Sum(counts)
  {
    if counts == [] then [] else Written(counts[..|counts| - 1]) + Ramp(counts[|counts| - 1])
  }

  predicate IsRamp(s: seq<byte>) {
    forall i :: 0 <= i < |s| ==> s[i] == i % 256
  }

  /** Every write that stored something started at a multiple of 256. */
  predicate Aligned(counts: seq<nat>) {
    forall j :: 0 <= j < |counts| && counts[j] > 0 ==> Sum(counts[..j]) % 256 == 0
  }

  lemma AlignedSnoc(counts: seq<nat>, n: nat)
    ensures Aligned(counts + [n]) <==> Aligned(counts) && (n > 0 ==> Sum(counts) % 256 == 0)
  {
    var all := counts + [n];
    assert all[..|counts|] == counts;
    assert forall j :: 0 <= j < |counts| ==> all[j] == counts[j] && all[..j] == counts[..j];
    assert all[|counts|] == n;
  }

  lemma RampAt(base: nat, i: nat)
    ensures base % 256 == 0 ==> (base + i) % 256 == i % 256
    ensures (base + 0) % 256 == base % 256
  {
  }

  /** Appending the front of the buffer continues the ramp exactly at a multiple of 256. */
  lemma RampAppend(s: seq<byte>, n: nat)
    ensures IsRamp(s + Ramp(n)) <==> IsRamp(s) && (n > 0 ==> |s| % 256 == 0)
  {
    var all := s + Ramp(n);
    assert forall i :: 0 <= i < |s| ==> all[i] == s[i];
    if n > 0 && |s| % 256 != 0 {
      assert all[|s|] == 0;
    } else {
      forall i | |s| <= i < |all| && IsRamp(s) ensures all[i] == i % 256 {
        RampAt(|s|, i - |s|);
      }
    }
  }

  /**
   * The file is byte i = i mod 256 throughout exactly when every write that stored something
   * started at a multiple of 256; short writes can break the pattern.
   */
  lemma {:induction false} WrittenExactly(counts: seq<nat>)
    ensures IsRamp(Written(counts)) <==> Aligned(counts)
  {
    if counts != [] {
      var front, n := counts[..|counts| - 1], counts[|counts| - 1];
      assert counts == front + [n];
      WrittenExactly(front);
      AlignedSnoc(front, n);
      RampAppend(Written(front), n);
    }
  }

  /** A write of one byte, and then of another: the second one starts the ramp again. */
  lemma MisalignedWrite()
    ensures Written([1, 1]) == [0, 0] && !IsRamp(Written([1, 1]))
  {
    var counts := [1, 1];
    assert counts[..1] == [1] && [1][..0] == [];
    assert Ramp(1) == [0];
    assert Written([1]) == Written([]) + Ramp(1);
    assert Written(counts) == [0, 0] && Written(counts)[1] == 0;
  }

  /** Every write but possibly the last stored a whole buffer. */
  predicate FullChunks(counts: seq<nat>, bufSize: nat) {
    forall j :: 0 <= j < |counts| - 1 ==> counts[j] == bufSize
  }

  predicate AllFull(counts: seq<nat>, bufSize: nat) {
    forall j :: 0 <= j < |counts| ==> counts[j] == bufSize
  }

  lemma FullNext(counts: seq<nat>, bufSize: nat, n: nat)
    requires AllFull(counts, bufSize)
    ensures FullChunks(counts + [n], bufSize) && (n == bufSize ==> AllFull(counts + [n], bufSize))
  {
  }

  lemma {:induction false} SumOfFull(counts: seq<nat>, bufSize: nat)
    requires bufSize % 256 == 0 && AllFull(counts, bufSize)
    ensures Sum(counts) % 256 == 0
  {
    if counts != [] {
      SumOfFull(counts[..|counts| - 1], bufSize);
      RampAt(bufSize, Sum(counts[..|counts| - 1]));
    }
  }

  lemma FullChunksAligned(counts: seq<nat>, bufSize: nat)
    requires bufSize % 256 == 0 && FullChunks(counts, bufSize)
    ensures Aligned(counts)
  {
    forall j | 0 <= j < |counts| ensures Sum(counts[..j]) % 256 == 0 {
      SumOfFull(counts[..j], bufSize);
    }
  }

  // ---- The loops -------------------------------------------------------------------------------

  method FillBuffer(buf: array<byte>)
    modifies buf
    ensures buf[..] == Ramp(buf.Length)
  {
    var i := 0;
    while i < buf.Length
      invariant 0 <= i <= buf.Length && buf[..i] == Ramp(i)
    {
      LowByte(i);
      buf[i] := BitAnd(i, 0xFF);
      assert buf[..i + 1] == Ramp(i + 1);
      i := i + 1;
    }
    assert buf[..i] == buf[..];
  }

  /** One more write of n bytes from the front of the buffer, where the last one ended. */
  lemma OneMoreWrite(leftover: seq<byte>, counts: seq<nat>, buf: seq<byte>, n: nat)
    requires n <= |buf| && buf == Ramp(|buf|)
    ensures Sum(counts + [n]) == Sum(counts) + n
    ensures Sum(counts) <= |Overlay(leftover, 0, Written(counts))|
    ensures Overlay(leftover, 0, Written(counts + [n]))
            == Overlay(Overlay(leftover, 0, Written(counts)), Sum(counts), buf[..n])
  {
    assert (counts + [n])[..|counts|] == counts;
    assert buf[..n] == Ramp(n);
    OverlayAppend(leftover, 0, Written(counts), Ramp(n));
  }

  /** `bytes += n` on a uint32_t that does not pass a bound. */
  function Advance(bytes: word, n: nat, bound: word): (r: word)
    requires bytes + n <= bound
    ensures r == bytes + n
  {
    Wrap(bytes + n)
  }

  /** One round of the write loop, at the end of what was written so far over `leftover`. */
  method WriteChunk(file: File, buf: array<byte>, total: word, bytesWritten: word,
                    ghost leftover: seq<byte>, ghost counts: seq<nat>)
    returns (ret: int)
    requires file.Valid() && file.open && buf[..] == Ramp(buf.Length)
    requires file.pos == bytesWritten == Sum(counts) < total
    requires file.content == Overlay(leftover, 0, Written(counts))
    requires file.fullWrites ==> AllFull(counts, buf.Length)
    modifies file`content, file`pos, file`errors
    ensures file.Valid()
    ensures file.errors ==
            if ret >= 0 then old(file.errors) else old(file.errors).(write := old(file.errors).write + 1)
    ensures ret >= 0 ==>
      && file.pos == bytesWritten + ret == Sum(counts + [ret]) <= total
      && file.content == Overlay(leftover, 0, Written(counts + [ret]))
    ensures ret >= 0 ==> ret <= buf.Length && (ret == 0 && file.progress ==> buf.Length == 0)
    ensures ret >= 0 && file.fullWrites ==>
      FullChunks(counts + [ret], buf.Length) && (file.pos < total ==> AllFull(counts + [ret], buf.Length))
  {
    var chunk: word := total - bytesWritten;
    if chunk > buf.Length {
      chunk := buf.Length;
    }
    ret := file.FsWrite(buf[..chunk]);
    if ret >= 0 {
      assert buf[..chunk][..ret] == buf[..ret];
      OneMoreWrite(leftover, counts, buf[..], ret);
      if file.fullWrites {
        FullNext(counts, buf.Length, ret);
      }
    }
  }

  /**
   * The write loop, followed for at most `rounds` writes; `finished` tells whether it has ended by
   * then. It writes over what is left of an older file.
   */
  method WritePhase(file: File, buf: array<byte>, total: word, rounds: nat)
    returns (ret: int, bytesWritten: word, finished: bool, ghost counts: seq<nat>)
    requires file.Valid() && file.open && file.pos == 0 && buf[..] == Ramp(buf.Length)
    modifies file`content, file`pos, file`errors
    ensures file.errors ==
            if ret >= 0 then old(file.errors) else old(file.errors).(write := old(file.errors).write + 1)
    ensures file.Valid() && bytesWritten == Sum(counts) <= total && |counts| <= rounds
    ensures finished <==> ret < 0 || bytesWritten == total
    ensures !finished ==> |counts| == rounds
    ensures ret >= 0 ==> file.content == Overlay(old(file.content), 0, Written(counts))
    ensures ret >= 0 && file.fullWrites ==> FullChunks(counts, buf.Length)
    // Without errors and empty writes it ends exactly when the buffer holds something or nothing is asked for
    ensures ret >= 0 && finished ==> buf.Length > 0 || total == 0
    ensures ret >= 0 && file.progress && rounds >= total && (buf.Length > 0 || total == 0) ==> finished
  {
    ret, bytesWritten, counts := 0, 0, [];
    var left := rounds;
    while bytesWritten < total && left > 0
      invariant file.Valid() && ret >= 0 && file.pos == bytesWritten == Sum(counts) <= total
      invariant file.errors == old(file.errors)
      invariant |counts| + left == rounds
      invariant file.content == Overlay(old(file.content), 0, Written(counts))
      invariant file.fullWrites ==> FullChunks(counts, buf.Length)
      invariant file.fullWrites && bytesWritten < total ==> AllFull(counts, buf.Length)
      invariant buf.Length == 0 ==> bytesWritten == 0
      invariant file.progress && buf.Length > 0 ==> |counts| <= bytesWritten
      decreases left
    {
      ret := WriteChunk(file, buf, total, bytesWritten, old(file.content), counts);
      if ret < 0 {
        finished := true;
        return;
      }
      counts := counts + [ret];
      bytesWritten := Advance(bytesWritten, ret, total);
      left := left - 1;
    }
    finished := bytesWritten == total;
  }

  method ReadPhase(file: File, buf: array<byte>, total: word) returns (ret: int, bytesRead: word)
    requires file.Valid() && file.open && file.pos == 0
    modifies file`pos, file`errors, buf
    ensures file.errors ==
            if ret >= 0 then old(file.errors) else old(file.errors).(read := old(file.errors).read + 1)
    ensures file.Valid() && bytesRead <= total && bytesRead <= |file.content|
    ensures ret >= 0 && file.faithful && buf.Length > 0 ==> bytesRead == total || bytesRead == |file.content|
    ensures buf.Length == 0 ==> bytesRead == 0
  {
    ret, bytesRead := 0, 0;
    while bytesRead < total
      invariant file.Valid() && ret >= 0 && file.pos == bytesRead <= total && file.errors == old(file.errors)
      invariant buf.Length == 0 ==> bytesRead == 0
      decreases total - bytesRead
    {
      var chunk: word := total - bytesRead;
      if chunk > buf.Length {
        chunk := buf.Length;
      }
      ret := file.FsRead(buf, chunk);
      if ret < 0 {
        return;
      }
      if ret == 0 {
        break;
      }
      bytesRead := Advance(bytesRead, ret, total);
    }
  }

  /** The sizes in bytes, which wrap at 2^32. */
  function BufSize(bufKb: word): word {
    Wrap(bufKb * 1024)
  }

  lemma Multiple(m: nat)
    ensures (256 * m) % 256 == 0
  {
  }

  /** The buffer is a whole number of kilobytes even when its size wraps, and empty only by wrapping. */
  lemma BufSizeExactly(bufKb: word)
    ensures BufSize(bufKb) == 1024 * (bufKb % 0x40_0000)
    ensures BufSize(bufKb) % 256 == 0
  {
    var q, r, x := bufKb / 0x40_0000, bufKb % 0x40_0000, bufKb * 1024;
    assert bufKb == 0x40_0000 * q + r;
    assert x == 0x1_0000_0000 * q + 1024 * r;
    QuotientUnique(0x1_0000_0000, q, 1024 * r, x / 0x1_0000_0000, x % 0x1_0000_0000);
    Multiple(4 * r);
  }

  /** A buffer of 4 GB has no bytes at all. */
  lemma EmptyBuffer()
    ensures BufSize(0x40_0000) == 0
  {
    BufSizeExactly(0x40_0000);
  }

  function TotalBytes(sizeMb: word): (r: word)
    ensures r == sizeMb * 0x10_0000 <==> sizeMb < 4096
    ensures r == 0 <==> sizeMb % 4096 == 0
  {
    Wrap(sizeMb * 1024 * 1024)
  }

  /**
   * What the write loop leaves has the requested size exactly when no more than that was left over,
   * and the pattern exactly when the writes were aligned.
   */
  lemma OnDiskExactly(leftover: seq<byte>, counts: seq<nat>, total: nat)
    requires Sum(counts) == total
    ensures var onDisk := Overlay(leftover, 0, Written(counts));
      && total <= |onDisk|
      && (|onDisk| == total <==> |leftover| <= total)
      && (IsRamp(onDisk[..total]) <==> Aligned(counts))
  {
    WrittenExactly(counts);
    assert Overlay(leftover, 0, Written(counts))[..total] == Written(counts);
  }

  /** The calls on the file whose failure ends the test. */
  predicate NoneFailed(before: Errors, now: Errors) {
    now.open == before.open && now.write == before.write && now.read == before.read
  }

  /** The first half of the command; `leftover` is what the unlink left. */
  method WriteTest(file: File, buf: array<byte>, total: word, rounds: nat)
    returns (ret: int, bytesWritten: word, finished: bool, ghost leftover: seq<byte>, ghost counts: seq<nat>)
    requires file.Valid() && !file.open && buf[..] == Ramp(buf.Length)
    modifies file
    ensures file.Valid() && (finished ==> !file.open)
    ensures leftover == [] || leftover == old(file.content)
    ensures file.errors.unlink == old(file.errors).unlink ==> leftover == []
    ensures file.errors.unlink >= old(file.errors).unlink && file.errors.read == old(file.errors).read
    ensures file.errors.open >= old(file.errors).open && file.errors.write >= old(file.errors).write
    ensures finished ==> (ret >= 0 <==> NoneFailed(old(file.errors), file.errors))
    ensures finished && ret >= 0 ==>
      && bytesWritten == Sum(counts) == total && file.content == Overlay(leftover, 0, Written(counts))
      && (file.fullWrites ==> FullChunks(counts, buf.Length))
      && (buf.Length > 0 || total == 0)
    ensures file.progress && rounds >= total && (buf.Length > 0 || total == 0) ==> finished
    ensures !finished ==> |counts| == rounds && Sum(counts) < total
  {
    bytesWritten, finished, counts := 0, true, [];
    var _ := file.FsUnlink();
    leftover := file.content;
    ret := file.FsOpen();
    if ret < 0 {
      return;
    }
    ret, bytesWritten, finished, counts := WritePhase(file, buf, total, rounds);
    if !finished {
      return;
    }
    if ret < 0 {
      var _ := file.FsClose();
      return;
    }
    var _ := file.FsSync();
    var _ := file.FsClose();
  }

  /** The second half, up to the clean-up. */
  method ReadTest(file: File, buf: array<byte>, total: word) returns (ret: int, bytesRead: word)
    requires file.Valid() && !file.open
    modifies file`pos, file`open, file`errors, buf
    ensures file.Valid() && !file.open
    ensures file.errors ==
            old(file.errors).(open := file.errors.open, read := file.errors.read, close := file.errors.close)
    ensures file.errors.open >= old(file.errors).open
    ensures ret >= 0 <==> NoneFailed(old(file.errors), file.errors)
    ensures ret >= 0 ==> bytesRead <= total
    ensures ret >= 0 && file.faithful && buf.Length > 0 ==> bytesRead == total || bytesRead == |file.content|
    ensures buf.Length == 0 ==> bytesRead == 0
  {
    bytesRead := 0;
    ret := file.FsOpen();
    if ret < 0 {
      return;
    }
    ret, bytesRead := ReadPhase(file, buf, total);
    var _ := file.FsClose();
  }

  /**
   * cmd_sd_speed, with the write loop followed for `rounds` writes. `leftover` is what the first
   * unlink left, `counts` what each write stored, `onDisk` the file between the two phases, and
   * `cleaned` the success of the last unlink.
   */
  method CmdSdSpeed(file: File, heap: Heap, sizeMb: word, bufKb: word, rounds: nat)
    returns (ret: int, finished: bool, bytesWritten: word, bytesRead: word,
             ghost leftover: seq<byte>, ghost counts: seq<nat>, ghost onDisk: seq<byte>, ghost cleaned: bool)
    requires file.Valid() && !file.open
    modifies file, heap
    // The file is closed and the buffer freed on every path
    ensures finished ==> ret <= 0 && !file.open && heap.live == old(heap.live)
    ensures sizeMb == 0 || bufKb == 0 ==> finished && ret == EINVAL && file.content == old(file.content)
    // It returns 0 exactly when the parameters are not 0 and none of these calls fails; unlinking,
    // syncing and closing are not among them, and neither is a short write
    ensures finished ==>
      (ret == 0 <==>
        && sizeMb > 0 && bufKb > 0 && heap.refusals == old(heap.refusals)
        && NoneFailed(old(file.errors), file.errors))
    ensures heap.refusals != old(heap.refusals) ==> ret == ENOMEM && file.content == old(file.content)
    // Success needs a buffer that is not empty after wrapping, or a total that is; then, if no write
    // is empty, the command ends
    ensures finished && ret == 0 ==> BufSize(bufKb) > 0 || TotalBytes(sizeMb) == 0
    ensures (BufSize(bufKb) > 0 || TotalBytes(sizeMb) == 0) && file.progress && rounds >= TotalBytes(sizeMb) ==>
      finished
    ensures !finished ==> |counts| == rounds && Sum(counts) < TotalBytes(sizeMb)
    // Success: the requested size was written over what was left of an older file, and read back
    ensures leftover == [] || leftover == old(file.content)
    ensures finished && ret == 0 ==>
      && bytesWritten == TotalBytes(sizeMb) <= |onDisk| && onDisk == Overlay(leftover, 0, Written(counts))
      && bytesRead <= bytesWritten && (file.faithful ==> bytesRead == bytesWritten)
      && file.content == (if cleaned then [] else onDisk)
    // The file has that size exactly when no more than that was left over, and byte i of what was
    // written is i mod 256 exactly when the writes were aligned, which full writes are
    ensures finished && ret == 0 ==>
      && (|onDisk| == TotalBytes(sizeMb) <==> |leftover| <= TotalBytes(sizeMb))
      && (IsRamp(onDisk[..bytesWritten]) <==> Aligned(counts))
    ensures finished && ret == 0 && file.fullWrites ==> Aligned(counts)
    // With no failed unlink nothing is left over, and nothing is left behind
    ensures finished && ret == 0 && file.errors.unlink == old(file.errors).unlink ==> leftover == [] && cleaned
  {
    bytesWritten, bytesRead, finished := 0, 0, true;
    leftover, counts, onDisk, cleaned := [], [], [], false;
    if sizeMb == 0 || bufKb == 0 {
      ret := EINVAL;
      return;
    }
    var bufSize, totalBytes := BufSize(bufKb), TotalBytes(sizeMb);

    var buf := heap.KMalloc(bufSize);
    if buf == null {
      ret := ENOMEM;
      return;
    }
    FillBuffer(buf);
    ret, bytesWritten, finished, leftover, counts := WriteTest(file, buf, totalBytes, rounds);
    if !finished {
      return;
    }
    if ret < 0 {
      heap.KFree(buf);
      return;
    }
    onDisk := file.content;
    ret, bytesRead := ReadTest(file, buf, totalBytes);
    if ret < 0 {
      heap.KFree(buf);
      return;
    }
    var unlinked := file.FsUnlink();
    cleaned := unlinked >= 0;
    heap.KFree(buf);
    ret := 0;

    OnDiskExactly(leftover, counts, totalBytes);
    BufSizeExactly(bufKb);
    if file.fullWrites {
      FullChunksAligned(counts, buf.Length);
    }
  }
}

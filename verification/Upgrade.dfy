/** Copying an image from a file into flash, and asking the boot loader for it. */
module Upgrade {
  import opened Bytes
  import opened FileSystem

  const CHUNK_SIZE: nat := 1024
  const SECTOR: nat := 4096
  const EINVAL: int := -22
  const ENOMEM: int := -12

  // ---- Flash -----------------------------------------------------------------------------------

  /** A span of cells: programming can only clear bits. */
  function Program(cells: seq<byte>, off: nat, data: seq<byte>): (r: seq<byte>)
    requires off + |data| <= |cells|
    ensures |r| == |cells|
  {
    seq(|cells|, i requires 0 <= i < |cells| =>
      if off <= i < off + |data| then And8(cells[i], data[i - off]) else cells[i])
  }

  /** Where `cells` ends up after the first `erase` cells are erased and `image` is programmed at 0. */
  function Burned(cells: seq<byte>, erase: nat, image: seq<byte>): (r: seq<byte>)
    requires |image| <= |cells|
    ensures |r| == |cells|
  {
    seq(|cells|, i requires 0 <= i < |cells| =>
      var c: byte := if i < erase then 0xFF else cells[i];
      if i < |image| then And8(c, image[i]) else c)
  }

  lemma BurnedNext(cells: seq<byte>, erase: nat, image: seq<byte>, data: seq<byte>)
    requires |image| + |data| <= |cells|
    ensures Program(Burned(cells, erase, image), |image|, data) == Burned(cells, erase, image + data)
  {
  }

  /**
   * Burning gives exactly the image precisely when no bit of it is missing from a cell that was not
   * erased first; in particular whenever the erase covers the image.
   */
  lemma BurnedExactly(cells: seq<byte>, erase: nat, image: seq<byte>)
    requires |image| <= |cells|
    ensures Burned(cells, erase, image)[..|image|] == image <==>
            forall i :: erase <= i < |image| ==> And8(cells[i], image[i]) == image[i]
    ensures forall i :: |image| <= i < erase && i < |cells| ==> Burned(cells, erase, image)[i] == 0xFF
    ensures forall i :: |image| <= i < |cells| && erase <= i ==> Burned(cells, erase, image)[i] == cells[i]
  {
    var r := Burned(cells, erase, image);
    forall i | 0 <= i < |image|
      ensures r[i] == image[i] <==> (erase <= i ==> And8(cells[i], image[i]) == image[i])
    {
      And8Erased(image[i]);
    }
    if forall i :: erase <= i < |image| ==> And8(cells[i], image[i]) == image[i] {
      assert r[..|image|] == image;
    } else {
      var i :| erase <= i < |image| && And8(cells[i], image[i]) != image[i];
      assert r[..|image|][i] != image[i];
    }
  }

  /** (size + 4095) & ~4095 on size_t: the sum wraps, and ~4095 becomes 2^32 - 4096. */
  function EraseSize(size: nat): nat {
    BitAnd(Wrap(size + 4095), WORD - SECTOR)
  }

  lemma Powers()
    ensures Pow2(12) == SECTOR && Pow2(32) == WORD
  {
    assert Pow2(4) == 16;
    assert Pow2(8) == 256;
    assert Pow2(12) == 4096;
    assert Pow2(16) == 0x1_0000;
    assert Pow2(20) == 0x10_0000;
    assert Pow2(24) == 0x100_0000;
    assert Pow2(28) == 0x1000_0000;
  }

  lemma EraseSizeRounds(size: nat)
    ensures EraseSize(size) == Wrap(size + 4095) - Wrap(size + 4095) % SECTOR
  {
    Powers();
    BitAndHighMask(Wrap(size + 4095), 20, 12);
    MaskValue(20, 12);
  }

  /** The erased span is the least multiple of the sector that covers the image, unless the sum wraps. */
  lemma EraseSizeExactly(size: nat)
    requires size < WORD
    ensures size <= WORD - SECTOR <==>
            && EraseSize(size) % SECTOR == 0 && EraseSize(size) >= size
            && forall m: nat :: m % SECTOR == 0 && m >= size ==> EraseSize(size) <= m
    ensures size > WORD - SECTOR ==> EraseSize(size) == 0
  {
    EraseSizeRounds(size);
    if size <= WORD - SECTOR {
      var x := size + 4095;
      assert Wrap(x) == x;
      assert (x - x % SECTOR) % SECTOR == 0;
      forall m: nat | m % SECTOR == 0 && m >= size ensures x - x % SECTOR <= m {
      }
    } else {
      assert Wrap(size + 4095) == size + 4095 - WORD;
    }
  }

  class FlashArea {
    var cells: seq<byte>
    var open: bool
    ghost var log: seq<(nat, nat)>     // offset and length of every write attempted
    ghost var errors: nat              // how many calls have failed so far

    method FlashAreaOpen() returns (rc: int)
      requires !open
      modifies this`open, this`errors
      ensures open == (rc >= 0) && errors == old(errors) + (if rc < 0 then 1 else 0)
    {
      rc := *;
      if rc >= 0 {
        open := true;
      } else {
        errors := errors + 1;
      }
    }

    method FlashAreaClose()
      requires open
      modifies this`open
      ensures !open
    {
      open := false;
    }

    /** Whatever was in cells [off, off + len) may be anything after a failure. */
    method Corrupt(off: nat, len: nat)
      requires off + len <= |cells|
      modifies this`cells
      ensures |cells| == |old(cells)|
      ensures forall i :: 0 <= i < |cells| && !(off <= i < off + len) ==> cells[i] == old(cells)[i]
    {
      var junk: seq<byte> := *;
      if |junk| == len {
        cells := cells[..off] + junk + cells[off + len..];
      }
    }

    method Erase(len: nat) returns (rc: int)
      requires open
      modifies this`cells, this`errors
      ensures |cells| == |old(cells)| && errors == old(errors) + (if rc < 0 then 1 else 0)
      ensures rc >= 0 ==> len <= |cells| && cells == Burned(old(cells), len, [])
      ensures forall i :: len <= i < |cells| ==> cells[i] == old(cells)[i]
    {
      if len > |cells| {
        errors := errors + 1;
        return EINVAL;
      }
      rc := *;
      if rc >= 0 {
        cells := Burned(cells, len, []);
      } else {
        errors := errors + 1;
        Corrupt(0, len);
      }
    }

    method Write(off: nat, data: seq<byte>) returns (rc: int)
      requires open
      modifies this`cells, this`log, this`errors
      ensures |cells| == |old(cells)| && errors == old(errors) + (if rc < 0 then 1 else 0)
      ensures log == old(log) + [(off, |data|)]
      ensures rc >= 0 ==> off + |data| <= |cells| && cells == Program(old(cells), off, data)
      ensures forall i :: 0 <= i < |cells| && !(off <= i < off + |data|) ==> cells[i] == old(cells)[i]
    {
      log := log + [(off, |data|)];
      if off + |data| > |cells| {
        errors := errors + 1;
        return EINVAL;
      }
      rc := *;
      if rc >= 0 {
        cells := Program(cells, off, data);
      } else {
        errors := errors + 1;
        Corrupt(off, |data|);
      }
    }
  }

  /** The writes lie end to end from offset 0 up to `end`. */
  ghost predicate Tiles(log: seq<(nat, nat)>, end: nat) {
    if log == [] then end == 0
    else
      var last := log[|log| - 1];
      last.0 + last.1 == end && last.1 > 0 && Tiles(log[..|log| - 1], last.0)
  }

  lemma TilesSnoc(log: seq<(nat, nat)>, longer: seq<(nat, nat)>, off: nat, len: nat)
    requires Tiles(log, off) && len > 0 && longer == log + [(off, len)]
    ensures Tiles(longer, off + len)
  {
    assert longer[..|log|] == log;
  }

  /** The writes come one after the other without overlap and end at or before `end`. */
  predicate WritesApart(log: seq<(nat, nat)>, end: nat) {
    && (forall i :: 0 <= i < |log| ==> log[i].0 + log[i].1 <= end)
    && (forall i, j :: 0 <= i < j < |log| ==> log[i].0 + log[i].1 <= log[j].0)
  }

  /** So no cell is programmed twice. */
  lemma {:induction false} TilesDisjoint(log: seq<(nat, nat)>, end: nat)
    requires Tiles(log, end)
    ensures WritesApart(log, end)
  {
    if log != [] {
      var k := |log| - 1;
      TilesDisjoint(log[..k], log[k].0);
      assert forall i :: 0 <= i < k ==> log[..k][i] == log[i];
    }
  }

  // ---- The copying loop as a function of what fs_read returns -----------------------------------

  /** `done` bytes are copied and the loop goes on, or it has ended and the function returns `rc`. */
  datatype Status = Running(done: nat) | Ended(rc: int, done: nat)

  /** The loop after fs_read has returned `results`, as long as the flash accepts every write. */
  function CopyStatus(size: nat, results: seq<int>): (r: Status)
    ensures r.done <= size && (r.Running? ==> r.done < size)
  {
    if results == [] then (if size == 0 then Ended(0, 0) else Running(0))
    else match CopyStatus(size, results[..|results| - 1])
      case Ended(rc, done) => Ended(rc, done)
      case Running(done) =>
        var bytesRead := results[|results| - 1];
        if bytesRead < 0 then Ended(bytesRead, done)
        else if bytesRead == 0 then Ended(0, done)
        else
          var next := done + Min(bytesRead, Min(CHUNK_SIZE, size - done));
          if next < size then Running(next) else Ended(0, next)
  }

  /** After `results`, all of them positive, `done` bytes are copied. */
  ghost predicate Copying(size: nat, results: seq<int>, done: nat) {
    && 0 !in results
    && CopyStatus(size, results) == if done < size then Running(done) else Ended(0, done)
  }

  /** One more positive result. */
  lemma StatusNext(size: nat, results: seq<int>, done: nat, n: nat)
    requires Copying(size, results, done) && done < size && 0 < n <= Min(CHUNK_SIZE, size - done)
    ensures Copying(size, results + [n], done + n)
  {
    assert (results + [n])[..|results|] == results;
  }

  /** The result that ends the loop: an error, or nothing read. */
  lemma StatusLast(size: nat, results: seq<int>, done: nat, r: int)
    requires Copying(size, results, done) && done < size && r <= 0
    ensures CopyStatus(size, results + [r]) == Ended(r, done)
    ensures 0 in results + [r] <==> r == 0
  {
    assert (results + [r])[..|results|] == results;
  }

  predicate AllPositive(results: seq<int>) {
    forall i :: 0 <= i < |results| ==> results[i] > 0
  }

  predicate NoneFails(results: seq<int>) {
    forall i :: 0 <= i < |results| ==> results[i] >= 0
  }

  /** How much the reads offer before the first one that returns nothing, a chunk at most each. */
  function Offered(results: seq<int>): nat {
    if results == [] then 0
    else
      var last := results[|results| - 1];
      Offered(results[..|results| - 1]) + (if AllPositive(results) then Min(last, CHUNK_SIZE) else 0)
  }

  /** For every sequence of results without an error: what has been copied, and whether the loop ends. */
  lemma {:induction false} CopyStatusExactly(size: nat, results: seq<int>)
    requires NoneFails(results)
    ensures CopyStatus(size, results) ==
            if Offered(results) >= size then Ended(0, size)
            else if AllPositive(results) then Running(Offered(results))
            else Ended(0, Offered(results))
  {
    if results != [] {
      var front, last := results[..|results| - 1], results[|results| - 1];
      CopyStatusExactly(size, front);
      assert AllPositive(results) <==> AllPositive(front) && last > 0;
    }
  }

  /** fs_read number k returns 0 although the image is not complete. */
  predicate EndsEarly(size: nat, results: seq<int>, k: nat) {
    k < |results| && results[k] == 0 && AllPositive(results[..k]) && Offered(results[..k]) < size
  }

  lemma {:induction false} OfferedPrefix(results: seq<int>, k: nat)
    requires k <= |results|
    ensures Offered(results[..k]) <= Offered(results)
    ensures k < |results| && results[k] <= 0 ==> Offered(results[..k]) == Offered(results)
    decreases |results|
  {
    if k < |results| {
      var front := results[..|results| - 1];
      assert front[..k] == results[..k];
      OfferedPrefix(front, k);
    } else {
      assert results[..k] == results;
    }
  }

  lemma {:induction false} FirstZero(results: seq<int>) returns (k: nat)
    requires NoneFails(results) && !AllPositive(results)
    ensures k < |results| && results[k] == 0 && AllPositive(results[..k])
  {
    var front := results[..|results| - 1];
    if AllPositive(front) {
      k := |results| - 1;
    } else {
      k := FirstZero(front);
      assert front[..k] == results[..k];
    }
  }

  /** A copy without errors covers the whole image exactly when no read returns 0 before its end. */
  lemma WholeExactly(size: nat, results: seq<int>)
    requires NoneFails(results) && CopyStatus(size, results).Ended?
    ensures CopyStatus(size, results).rc == 0
    ensures CopyStatus(size, results).done == size <==> !exists k: nat :: EndsEarly(size, results, k)
  {
    CopyStatusExactly(size, results);
    forall k: nat | EndsEarly(size, results, k) ensures Offered(results) < size {
      OfferedPrefix(results, k);
    }
    if Offered(results) < size {
      var k := FirstZero(results);
      OfferedPrefix(results, k);
      assert EndsEarly(size, results, k);
    }
  }

  /** Half of a 2 KB image, and then an early end of file: the copy returns 0. */
  lemma TruncationWitness()
    ensures CopyStatus(2048, [1024, 0]) == Ended(0, 1024)
    ensures EndsEarly(2048, [1024, 0], 1)
  {
    var results := [1024, 0];
    assert results[..1] == [1024] && [1024][..0] == [];
    assert Offered([1024]) == Offered([]) + 1024;
    CopyStatusExactly(2048, results);
    OfferedPrefix(results, 1);
  }

  // ---- write_ota_file_to_partition -------------------------------------------------------------

  /** One round of the loop: read a piece and program it. */
  method CopyChunk(file: File, fa: FlashArea, readBuf: array<byte>, size: nat, written: nat)
    returns (rc: int, bytesRead: int)
    requires file.Valid() && file.open && file.pos == written < size && fa.open && readBuf.Length == CHUNK_SIZE
    modifies file`pos, file`errors, fa`cells, fa`log, fa`errors, readBuf
    ensures file.errors ==
            if bytesRead >= 0 then old(file.errors) else old(file.errors).(read := old(file.errors).read + 1)
    ensures fa.errors == old(fa.errors) + (if bytesRead > 0 && rc < 0 then 1 else 0)
    ensures file.Valid() && |fa.cells| == |old(fa.cells)| && bytesRead <= Min(CHUNK_SIZE, size - written)
    ensures bytesRead <= 0 ==> rc == bytesRead && fa.cells == old(fa.cells) && fa.log == old(fa.log)
    ensures bytesRead == 0 && file.faithful ==> written == |file.content|
    ensures bytesRead > 0 ==>
      && file.pos == written + bytesRead && fa.log == old(fa.log) + [(written, bytesRead)]
      && forall i :: written + bytesRead <= i < |fa.cells| ==> fa.cells[i] == old(fa.cells)[i]
    ensures bytesRead > 0 && rc >= 0 ==>
      && file.pos <= |fa.cells|
      && fa.cells == Program(old(fa.cells), written, file.content[written..file.pos])
  {
    var bytesToRead := if CHUNK_SIZE < size - written then CHUNK_SIZE else size - written;
    bytesRead := file.FsRead(readBuf, bytesToRead);
    if bytesRead <= 0 {
      rc := bytesRead;
      return;
    }
    rc := fa.Write(written, readBuf[..bytesRead]);
  }

  /** A further piece of the image, seen in the flash. */
  lemma BurnedFurther(cells: seq<byte>, erase: nat, content: seq<byte>, written: nat, end: nat)
    requires written <= end <= |cells| && end <= |content|
    ensures Program(Burned(cells, erase, content[..written]), written, content[written..end])
            == Burned(cells, erase, content[..end])
  {
    BurnedNext(cells, erase, content[..written], content[written..end]);
    assert content[..written] + content[written..end] == content[..end];
  }

  /**
   * The copying loop: `cells` are the flash cells before the erase, `results` what fs_read returned,
   * `writes` the flash writes, and `end` where the last of them ends, which is beyond `written` when
   * the flash refused it.
   */
  method CopyImage(file: File, fa: FlashArea, readBuf: array<byte>, size: nat,
                   ghost cells: seq<byte>, ghost erase: nat)
    returns (rc: int, written: nat, ghost results: seq<int>, ghost writes: seq<(nat, nat)>, ghost end: nat)
    requires file.Valid() && file.open && file.pos == 0 && fa.open && readBuf.Length == CHUNK_SIZE
    requires fa.cells == Burned(cells, erase, [])
    modifies file`pos, file`errors, fa`cells, fa`log, fa`errors, readBuf
    ensures file.Valid() && |fa.cells| == |cells|
    // It returns 0 exactly when no read and no flash write fails
    ensures rc == 0 <==> file.errors.read == old(file.errors).read && fa.errors == old(fa.errors)
    ensures file.errors == old(file.errors).(read := file.errors.read)
    ensures Grown(old(file.errors), file.errors)
    // The result is that of the loop on the recorded reads, unless the flash refused a write
    ensures rc <= 0 && if written < end then rc < 0 else CopyStatus(size, results) == Ended(rc, written)
    ensures rc == 0 ==>
      && written <= |file.content| && written <= |cells|
      && fa.cells == Burned(cells, erase, file.content[..written])
    ensures rc == 0 && file.faithful ==> written == size || written == |file.content|
    // An early end of file is reported as success, and nothing else leaves a short image with 0
    ensures 0 in results <==> rc == 0 && written < size
    ensures fa.log == old(fa.log) + writes && Tiles(writes, end) && written <= end <= size
    ensures forall i :: size <= i < |cells| ==> fa.cells[i] == old(fa.cells)[i]
  {
    written, results, writes, end := 0, [], [], 0;
    assert file.content[..written] == [];
    while written < size
      invariant file.Valid() && file.pos == written <= size && written <= |cells|
      invariant file.errors == old(file.errors) && fa.errors == old(fa.errors)
      invariant Copying(size, results, written)
      invariant fa.cells == Burned(cells, erase, file.content[..written])
      invariant fa.log == old(fa.log) + writes && Tiles(writes, written) && end == written
      decreases size - written
    {
      ghost var before, tiles := results, writes;
      var bytesRead;
      rc, bytesRead := CopyChunk(file, fa, readBuf, size, written);
      results := before + [bytesRead];
      if bytesRead <= 0 {
        StatusLast(size, before, written, bytesRead);
        return;
      }
      writes, end := tiles + [(written, bytesRead)], written + bytesRead;
      TilesSnoc(tiles, writes, written, bytesRead);
      if rc < 0 {
        return;
      }
      StatusNext(size, before, written, bytesRead);
      BurnedFurther(cells, erase, file.content, written, written + bytesRead);
      written := written + bytesRead;
    }
    rc := 0;
  }

  /** The part of the function between the opens and the closes. */
  method EraseAndCopy(file: File, fa: FlashArea, heap: Heap, size: nat, eraseSize: nat)
    returns (rc: int, written: nat, ghost results: seq<int>, ghost writes: seq<(nat, nat)>)
    requires file.Valid() && file.open && file.pos == 0 && fa.open
    modifies file`pos, file`errors, fa`cells, fa`log, fa`errors, heap
    ensures file.Valid() && |fa.cells| == |old(fa.cells)| && heap.live == old(heap.live)
    ensures rc <= 0 && (heap.refusals != old(heap.refusals) ==> rc == ENOMEM)
    ensures rc == 0 <==>
      && file.errors.read == old(file.errors).read && fa.errors == old(fa.errors) && heap.refusals == old(heap.refusals)
    ensures file.errors == old(file.errors).(read := file.errors.read)
    ensures Grown(old(file.errors), file.errors)
    ensures rc == 0 ==>
      && CopyStatus(size, results) == Ended(0, written)
      && written <= size && written <= |file.content| && written <= |fa.cells|
      && fa.cells == Burned(old(fa.cells), eraseSize, file.content[..written])
    ensures rc == 0 && file.faithful ==> written == size || written == |file.content|
    ensures 0 in results <==> rc == 0 && written < size
    ensures fa.log == old(fa.log) + writes && WritesApart(writes, size)
    ensures forall i :: size <= i < |fa.cells| && eraseSize <= i ==> fa.cells[i] == old(fa.cells)[i]
  {
    written, results, writes := 0, [], [];
    var readBuf: array?<byte> := null;
    label copy: {
      rc := fa.Erase(eraseSize);
      if rc < 0 {
        break copy;
      }
      readBuf := heap.KMalloc(CHUNK_SIZE);
      if readBuf == null {
        rc := ENOMEM;
        break copy;
      }
      ghost var end;
      rc, written, results, writes, end := CopyImage(file, fa, readBuf, size, old(fa.cells), eraseSize);
      TilesDisjoint(writes, end);
    }
    if readBuf != null {
      heap.KFree(readBuf);
    }
  }

  /** The calls on the file whose failure ends the upgrade; closing it is not among them. */
  predicate NoneFailed(before: Errors, now: Errors) {
    now.stat == before.stat && now.open == before.open && now.read == before.read
  }

  /**
   * `regular` and `size` are what fs_stat reported, `written` is the final write_offset, and
   * `results` are the results of fs_read, none if the copying did not begin.
   */
  method WriteOtaFileToPartition(file: File, fa: FlashArea, heap: Heap)
    returns (rc: int, size: nat, written: nat, ghost regular: bool, ghost results: seq<int>,
             ghost writes: seq<(nat, nat)>)
    requires file.Valid() && !file.open && !fa.open
    modifies file`pos, file`open, file`errors, fa, heap
    ensures file.Valid() && size < WORD && |fa.cells| == |old(fa.cells)|
    // Every resource acquired is released, on every path
    ensures !file.open && !fa.open && heap.live == old(heap.live)
    // It returns 0 exactly when stat shows a file that is not empty and none of these calls fails
    ensures rc <= 0
    ensures rc == 0 <==>
      && regular && 0 < size && NoneFailed(old(file.errors), file.errors)
      && fa.errors == old(fa.errors) && heap.refusals == old(heap.refusals)
    ensures file.errors.stat == old(file.errors).stat && (!regular || size == 0) ==> rc == EINVAL
    ensures heap.refusals != old(heap.refusals) ==> rc == ENOMEM
    // Success: the file's first `written` bytes are burned over the erased span
    ensures rc == 0 ==>
      && CopyStatus(size, results) == Ended(0, written)
      && written <= size && written <= |file.content| && written <= |fa.cells|
      && fa.cells == Burned(old(fa.cells), EraseSize(size), file.content[..written])
    ensures Grown(old(file.errors), file.errors) && file.errors.write == old(file.errors).write
    ensures file.faithful ==> regular && size == |file.content|
    ensures rc == 0 && file.faithful ==> written == size
    // An early end of file is reported as success, and is the only way to a short image
    ensures 0 in results <==> rc == 0 && written < size
    // On every path the writes lie within the image, no two of them overlap, and the erase covers
    // them unless the rounding wraps; the rest of the flash is kept
    ensures fa.log == old(fa.log) + writes && WritesApart(writes, size)
    ensures size <= WORD - SECTOR ==> WritesApart(writes, EraseSize(size))
    ensures forall i :: size <= i < |fa.cells| && EraseSize(size) <= i ==> fa.cells[i] == old(fa.cells)[i]
  {
    written, results, writes := 0, [], [];
    var isFile;
    rc, isFile, size := file.FsStat();
    regular := isFile;
    if rc < 0 {
      return;
    }
    if !isFile || size == 0 {
      rc := EINVAL;
      return;
    }
    rc := fa.FlashAreaOpen();
    if rc < 0 {
      return;
    }
    rc := file.FsOpen();
    if rc < 0 {
      fa.FlashAreaClose();
      return;
    }

    rc, written, results, writes := EraseAndCopy(file, fa, heap, size, EraseSize(size));
    EraseSizeExactly(size);
    var _ := file.FsClose();
    fa.FlashAreaClose();
  }

  // ---- trigger_upgrade and perform_ota_upgrade_from_file ---------------------------------------

  class BootLoader {
    var requests: nat
    var rebooted: bool

    method BootRequestUpgrade() returns (rc: int)
      modifies this`requests
      ensures requests == old(requests) + 1
    {
      requests := requests + 1;
      rc := *;
    }

    method TriggerUpgrade() returns (rc: int)
      modifies this
      ensures requests == old(requests) + 1
      ensures rebooted == (old(rebooted) || rc >= 0)
    {
      rc := BootRequestUpgrade();
      if rc < 0 {
        return;
      }
      rebooted := true;
    }
  }

  /** An upgrade is requested exactly when the copy returned 0. */
  method PerformOtaUpgradeFromFile(file: File, fa: FlashArea, heap: Heap, boot: BootLoader)
    returns (rc: int, size: nat, written: nat, ghost regular: bool, ghost results: seq<int>)
    requires file.Valid() && !file.open && !fa.open
    modifies file`pos, file`open, file`errors, fa, heap, boot
    ensures file.Valid() && size < WORD && |fa.cells| == |old(fa.cells)|
    ensures !file.open && !fa.open && heap.live == old(heap.live)
    ensures boot.requests == old(boot.requests) + (if rc == 0 then 1 else 0)
    ensures rc == 0 <==>
      && regular && 0 < size && NoneFailed(old(file.errors), file.errors)
      && fa.errors == old(fa.errors) && heap.refusals == old(heap.refusals)
    ensures Grown(old(file.errors), file.errors) && file.errors.write == old(file.errors).write
    ensures file.faithful ==> regular && size == |file.content|
    ensures rc != 0 ==> boot.rebooted == old(boot.rebooted)
    // After an early end of file a truncated image is requested, and that is the only way to one
    ensures 0 in results ==> boot.requests == old(boot.requests) + 1
    ensures 0 in results <==> rc == 0 && written < size
    // A request means that the first `written` bytes of the file are in flash ...
    ensures rc == 0 ==>
      && 0 < size && CopyStatus(size, results) == Ended(0, written)
      && written <= size && written <= |file.content| && written <= |fa.cells|
      && fa.cells == Burned(old(fa.cells), EraseSize(size), file.content[..written])
    // ... and the whole file if the file system is faithful: then the flash holds the file, erased
    // cells up to the next sector boundary, and what it held before
    ensures rc == 0 && file.faithful ==>
      written == size == |file.content| <= |fa.cells|
    ensures rc == 0 && file.faithful && size <= WORD - SECTOR ==>
      && fa.cells[..size] == file.content
      && (forall i :: size <= i < EraseSize(size) && i < |fa.cells| ==> fa.cells[i] == 0xFF)
      && (forall i :: EraseSize(size) <= i < |fa.cells| ==> fa.cells[i] == old(fa.cells)[i])
  {
    ghost var writes;
    rc, size, written, regular, results, writes := WriteOtaFileToPartition(file, fa, heap);
    if rc == 0 {
      var _ := boot.TriggerUpgrade();
      BurnedExactly(old(fa.cells), EraseSize(size), file.content[..written]);
      EraseSizeExactly(size);
      if file.faithful {
        assert file.content[..written] == file.content;
      }
    }
  }
}

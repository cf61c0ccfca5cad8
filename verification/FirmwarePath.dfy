/** From HTTP fragments to a boot request: the two shell commands run one after the other. */
module FirmwarePath {
  import opened Bytes
  import opened FileSystem
  import HttpDl
  import Sha256
  import Upgrade

  /** What the file holds after a complete download. */
  function Downloaded(before: seq<byte>, events: seq<HttpDl.Event>): seq<byte> {
    Overlay(before, 0, HttpDl.Bodies(events))
  }

  /**
   * The file is the downloaded body exactly when the file of that name was not longer before: the
   * open does not truncate, and an old tail would be hashed and flashed along with the new image.
   */
  lemma DownloadedExactly(before: seq<byte>, events: seq<HttpDl.Event>)
    ensures Downloaded(before, events) == HttpDl.Bodies(events) <==> |before| <= |HttpDl.Bodies(events)|
    ensures HttpDl.Bodies(events) <= Downloaded(before, events)
    ensures |Downloaded(before, events)| >= |before|
    ensures forall i :: |HttpDl.Bodies(events)| <= i < |before| ==> Downloaded(before, events)[i] == before[i]
  {
  }

  /** The file after a transfer in which fs_write, whenever it was called, stored `writes`. */
  function Transferred(before: seq<byte>, events: seq<HttpDl.Event>, writes: seq<int>): seq<byte>
    requires HttpDl.Possible(events, writes)
  {
    Overlay(before, 0, HttpDl.Stored(events, writes))
  }

  lemma OverlaidIs(before: seq<byte>, stored: seq<byte>, body: seq<byte>)
    ensures var image := Overlay(before, 0, stored);
      && stored <= image && |image| == Max(|stored|, |before|)
      && (forall i :: |stored| <= i < |before| ==> image[i] == before[i])
    ensures Overlay(before, 0, stored) == body <==>
            && stored <= body && |body| == Max(|stored|, |before|)
            && forall i :: |stored| <= i < |before| ==> before[i] == body[i]
  {
    var image := Overlay(before, 0, stored);
    if stored <= body && |body| == |image| && forall i :: |stored| <= i < |before| ==> before[i] == body[i] {
      assert forall i :: 0 <= i < |image| ==> image[i] == body[i];
    }
  }

  /**
   * Wherever a transfer ends, the file holds what arrived and then the rest of the old file. It is
   * the new image exactly when that rest happens to complete it.
   */
  lemma TransferredExactly(before: seq<byte>, events: seq<HttpDl.Event>, writes: seq<int>)
    requires HttpDl.Possible(events, writes)
    ensures var stored, image := HttpDl.Stored(events, writes), Transferred(before, events, writes);
      && stored <= image && |image| == Max(|stored|, |before|)
      && (forall i :: |stored| <= i < |before| ==> image[i] == before[i])
      && (image == HttpDl.Bodies(events) <==>
            && stored <= HttpDl.Bodies(events) && |HttpDl.Bodies(events)| == Max(|stored|, |before|)
            && forall i :: |stored| <= i < |before| ==> before[i] == HttpDl.Bodies(events)[i])
  {
    OverlaidIs(before, HttpDl.Stored(events, writes), HttpDl.Bodies(events));
  }

  function Piece(frag: seq<byte>, now: int): HttpDl.Event {
    HttpDl.Event(HttpDl.Response(false, 0, true, frag), false, now)
  }

  /** One piece of an image of three bytes arrives, over an older file of four. */
  lemma CutOff(now: int)
    ensures var es := [Piece([9], now), Piece([8, 7], now)];
      && HttpDl.Possible(es, [1])
      && HttpDl.Bodies(es) == [9, 8, 7]
      && Transferred([1, 2, 3, 4], es, [1]) == [9, 2, 3, 4]
  {
    var es := [Piece([9], now), Piece([8, 7], now)];
    assert es[..1] == [es[0]] && es[..1][..0] == [] && [1][..0] == [];
    assert HttpDl.Bodies(es[..1]) == HttpDl.Bodies([]) + [9];
    assert HttpDl.Bodies(es) == HttpDl.Bodies(es[..1]) + [8, 7];
    assert HttpDl.Stored(es, [1]) == HttpDl.Stored(es, []) + [9];
  }

  /** And a whole image of three bytes over that file. */
  lemma OldTail(now: int)
    ensures Downloaded([1, 2, 3, 4], [Piece([9, 8, 7], now)]) == [9, 8, 7, 4]
  {
    var es := [Piece([9, 8, 7], now)];
    assert es[..0] == [];
    assert HttpDl.Bodies(es) == HttpDl.Bodies([]) + [9, 8, 7];
  }

  /** http_dl followed by upgrade on the same file; `writes` is what fs_write stored, call by call. */
  method DownloadAndUpgrade(file: File, events: seq<HttpDl.Event>, reachable: bool, delivered: nat,
                            operation: Sha256.HashOperation, shaBuffer: array<byte>, sha256Str: array<char>,
                            fa: Upgrade.FlashArea, heap: Heap, boot: Upgrade.BootLoader)
    returns (complete: bool, shaRc: int, ghost writes: seq<int>)
    requires file.Valid() && !file.open && !fa.open && !operation.active
    requires shaBuffer.Length == Sha256.READ_BUFFER_SIZE && sha256Str.Length == 65
    modifies file, operation, shaBuffer, sha256Str, fa, heap, boot
    ensures !file.open && !fa.open && heap.live == old(heap.live) && |fa.cells| == |old(fa.cells)|
    ensures HttpDl.Possible(events, writes) && (complete ==> |writes| == |events|)
    ensures file.errors == old(file.errors) ==> |writes| == if reachable then Min(delivered, |events|) else 0
    ensures complete && file.fullWrites ==>
      Transferred(old(file.content), events, writes) == Downloaded(old(file.content), events)
    // The upgrade is requested if no call fails, wherever the connection was lost, and only if none
    // on the flash or the heap fails
    ensures boot.requests > old(boot.requests) ==> fa.errors == old(fa.errors) && heap.refusals == old(heap.refusals)
    ensures file.faithful && file.content != [] && fa.errors == old(fa.errors) && heap.refusals == old(heap.refusals)
            && file.errors == old(file.errors) ==>
      boot.requests > old(boot.requests)
    // When it was requested, the flash holds, and the digest printed is that of, exactly what the
    // transfer left in the file, complete or not; the file system is to be faithful and fs_write not to fail
    ensures file.errors.write == old(file.errors).write && file.faithful && boot.requests > old(boot.requests) ==>
      var image := Transferred(old(file.content), events, writes);
      && file.content == image
      && (|image| <= WORD - Upgrade.SECTOR ==>
            && |image| <= |fa.cells| && fa.cells[..|image|] == image
            && (forall i :: |image| <= i < Upgrade.EraseSize(|image|) && i < |fa.cells| ==> fa.cells[i] == 0xFF)
            && (forall i :: Upgrade.EraseSize(|image|) <= i < |fa.cells| ==> fa.cells[i] == old(fa.cells)[i]))
      && (shaRc == 0 ==> sha256Str[..64] == Sha256.Hex(operation.hash(image)))
  {
    var rc: int;
    var lines: seq<HttpDl.Line>;
    ghost var fileOpened;
    rc, complete, lines, shaRc, fileOpened, writes :=
      HttpDl.HttpDlFile(file, events, reachable, delivered, operation, shaBuffer, sha256Str);
    var otaRc, size, written;
    ghost var regular, results;
    otaRc, size, written, regular, results := Upgrade.PerformOtaUpgradeFromFile(file, fa, heap, boot);
  }
}

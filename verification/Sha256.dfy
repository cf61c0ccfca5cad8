/** Hashing a file in pieces, and printing a digest in hexadecimal. */
module Sha256 {
  import opened Bytes
  import opened FileSystem

  const READ_BUFFER_SIZE: nat := 1024
  const EIO: int := -5

  type Digest = d: seq<byte> | |d| == 32 witness seq(32, _ => 0)

  /** A multi-part hash operation of the PSA interface, for an arbitrary hash function. */
  class HashOperation {
    const hash: seq<byte> -> Digest
    var active: bool
    var fed: seq<byte>
    ghost var errors: nat      // how many calls other than psa_hash_abort have failed so far

    method PsaCryptoInit() returns (status: int)
      modifies this`errors
      ensures errors == old(errors) + (if status == 0 then 0 else 1)
    {
      status := *;
      if status != 0 {
        errors := errors + 1;
      }
    }

    method Setup() returns (status: int)
      requires !active
      modifies this
      ensures errors == old(errors) + (if status == 0 then 0 else 1)
      ensures if status == 0 then active && fed == [] else !active
    {
      status := *;
      if status == 0 {
        active, fed := true, [];
      } else {
        errors := errors + 1;
      }
    }

    method Update(data: seq<byte>) returns (status: int)
      requires active
      modifies this
      ensures active && (status == 0 ==> fed == old(fed) + data)
      ensures errors == old(errors) + (if status == 0 then 0 else 1)
    {
      status := *;
      if status == 0 {
        fed := fed + data;
      } else {
        errors := errors + 1;
      }
    }

    method Abort()
      modifies this`active
      ensures !active
    {
      active := false;
    }

    method Finish() returns (status: int, digest: Digest)
      requires active
      modifies this`active, this`errors
      ensures status == 0 ==> !active && digest == hash(fed)
      ensures errors == old(errors) + (if status == 0 then 0 else 1)
    {
      status, digest := *, seq(32, _ => 0);
      if status == 0 {
        active := false;
        digest := hash(fed);
      } else {
        errors := errors + 1;
      }
    }
  }

  /** The reading loop: the operation is fed with the file until an update fails or nothing is read. */
  method FeedFile(file: File, operation: HashOperation, buffer: array<byte>) returns (status: int, bytesRead: int)
    requires file.Valid() && file.open && file.pos == 0 && buffer.Length == READ_BUFFER_SIZE
    requires operation.active && operation.fed == []
    modifies file`pos, file`errors, operation, buffer
    ensures file.Valid() && operation.active && (status == 0 ==> bytesRead <= 0)
    ensures operation.errors == old(operation.errors) + (if status == 0 then 0 else 1)
    ensures file.errors ==
            if bytesRead >= 0 then old(file.errors) else old(file.errors).(read := old(file.errors).read + 1)
    ensures status == 0 && bytesRead == 0 ==>
      && |operation.fed| <= |file.content| && operation.fed == file.content[..|operation.fed|]
      && (file.faithful ==> operation.fed == file.content)
  {
    status := 0;
    bytesRead := file.FsRead(buffer, buffer.Length);
    while bytesRead > 0
      invariant file.Valid() && operation.active && operation.errors == old(operation.errors) && status == 0
      invariant file.errors ==
                if bytesRead >= 0 then old(file.errors) else old(file.errors).(read := old(file.errors).read + 1)
      invariant 0 <= bytesRead ==> |operation.fed| + bytesRead == file.pos && bytesRead <= buffer.Length
      invariant 0 <= bytesRead ==> operation.fed + buffer[..bytesRead] == file.content[..file.pos]
      invariant bytesRead == 0 && file.faithful ==> file.pos == |file.content|
      decreases |file.content| - file.pos, bytesRead
    {
      status := operation.Update(buffer[..bytesRead]);
      if status != 0 {
        return;
      }
      ghost var p := file.pos;
      bytesRead := file.FsRead(buffer, buffer.Length);
      if bytesRead >= 0 {
        assert file.content[..p] + file.content[p..file.pos] == file.content[..file.pos];
      }
    }
    assert bytesRead == 0 ==> operation.fed + buffer[..0] == operation.fed;
  }

  /** calculate_file_sha256; `buffer` is the function's static buffer. */
  method CalculateFileSha256(file: File, operation: HashOperation, buffer: array<byte>)
    returns (rc: int, digest: Digest)
    requires file.Valid() && !file.open && buffer.Length == READ_BUFFER_SIZE && !operation.active
    modifies file`pos, file`open, file`errors, operation, buffer
    ensures file.Valid()
    // It returns 0 exactly when no call but the closing of the file fails
    ensures rc == 0 <==>
      && operation.errors == old(operation.errors)
      && file.errors.open == old(file.errors).open && file.errors.read == old(file.errors).read
    ensures file.errors ==
            old(file.errors).(open := file.errors.open, read := file.errors.read, close := file.errors.close)
    ensures Grown(old(file.errors), file.errors)
    ensures operation.errors != old(operation.errors) ==> rc == EIO
    // The file is closed and the operation released on every path
    ensures !file.open && !operation.active
    // Success: the digest of what was read, which is the whole file if reads end only at its end
    ensures rc <= 0
    ensures rc == 0 ==>
      && digest == operation.hash(operation.fed)
      && |operation.fed| <= |file.content| && operation.fed == file.content[..|operation.fed|]
    ensures rc == 0 && file.faithful ==> operation.fed == file.content
  {
    digest := seq(32, _ => 0);
    var status := operation.PsaCryptoInit();
    if status != 0 {
      rc := EIO;
      return;
    }
    rc := file.FsOpen();
    if rc < 0 {
      return;
    }
    status := operation.Setup();
    if status != 0 {
      var _ := file.FsClose();
      rc := EIO;
      return;
    }

    var bytesRead;
    status, bytesRead := FeedFile(file, operation, buffer);
    if status != 0 {
      operation.Abort();
      var _ := file.FsClose();
      rc := EIO;
      return;
    }
    if bytesRead < 0 {
      operation.Abort();
      var _ := file.FsClose();
      rc := bytesRead;
      return;
    }

    status, digest := operation.Finish();
    if status != 0 {
      operation.Abort();
      var _ := file.FsClose();
      rc := EIO;
      return;
    }
    var _ := file.FsClose();
    rc := 0;
  }

  // ---- Hexadecimal -----------------------------------------------------------------------------

  function HexDigit(d: nat): char
    requires d < 16
  {
    if d < 10 then ('0' as int + d) as char else ('a' as int + d - 10) as char
  }

  function HexPair(b: byte): (r: string)
    ensures |r| == 2
  {
    [HexDigit(b / 16), HexDigit(b % 16)]
  }

  function Hex(bytes: seq<byte>): (r: string)
    ensures |r| == 2 * |bytes|
  {
    if bytes == [] then "" else Hex(bytes[..|bytes| - 1]) + HexPair(bytes[|bytes| - 1])
  }

  function DigitValue(c: char): int {
    if '0' <= c <= '9' then c as int - '0' as int
    else if 'a' <= c <= 'f' then c as int - 'a' as int + 10
    else -1
  }

  /** The bytes a string of hexadecimal digits stands for. */
  function Unhex(s: string): seq<int>
    requires |s| % 2 == 0
  {
    if s == "" then []
    else Unhex(s[..|s| - 2]) + [16 * DigitValue(s[|s| - 2]) + DigitValue(s[|s| - 1])]
  }

  lemma PairRoundTrip(b: byte)
    ensures 16 * DigitValue(HexPair(b)[0]) + DigitValue(HexPair(b)[1]) == b
  {
    DigitRoundTrip(b / 16);
    DigitRoundTrip(b % 16);
  }

  lemma DigitRoundTrip(d: nat)
    requires d < 16
    ensures DigitValue(HexDigit(d)) == d
  {
  }

  /** Reading the printed digest back gives the digest, so no two digests print alike. */
  lemma {:induction false} HexRoundTrip(bytes: seq<byte>)
    ensures Unhex(Hex(bytes)) == bytes
  {
    if bytes != [] {
      var k := |bytes| - 1;
      HexRoundTrip(bytes[..k]);
      PairRoundTrip(bytes[k]);
      var h := Hex(bytes);
      assert h[..|h| - 2] == Hex(bytes[..k]);
      assert h[|h| - 2] == HexPair(bytes[k])[0] && h[|h| - 1] == HexPair(bytes[k])[1];
    }
  }

  /** Two digits a byte, the high one first, in lower case. */
  lemma HexExample()
    ensures Hex([0x0F, 0xA9]) == "0fa9"
  {
    assert [0x0F, 0xA9][..1] == [0x0F] && [0x0F][..0] == [];
    assert Hex([0x0F]) == Hex([]) + HexPair(0x0F);
    assert HexPair(0x0F) == "0f" && HexPair(0xA9) == "a9";
  }

  /** sprintf(p, "%02x", b): two digits and a terminator. */
  method Sprintf02x(s: array<char>, at: nat, b: byte)
    requires at + 2 < s.Length
    modifies s
    ensures s[..at] == old(s[..at])
    ensures s[at] == HexDigit(b / 16) && s[at + 1] == HexDigit(b % 16) && s[at + 2] == '\0'
  {
    s[at] := HexDigit(b / 16);
    s[at + 1] := HexDigit(b % 16);
    s[at + 2] := '\0';
  }

  /** The loop of print_sha256_sum fills all 65 characters, the last with the terminator. */
  method PrintSha256Sum(sha256: array<byte>, sha256Str: array<char>)
    requires sha256.Length == 32 && sha256Str.Length == 65
    modifies sha256Str
    ensures sha256Str[..64] == Hex(sha256[..]) && sha256Str[64] == '\0'
  {
    var i := 0;
    while i < 32
      invariant 0 <= i <= 32
      invariant sha256Str[..2 * i] == Hex(sha256[..i])
      invariant i > 0 ==> sha256Str[2 * i] == '\0'
    {
      assert sha256[..i + 1][..i] == sha256[..i];
      Sprintf02x(sha256Str, i * 2, sha256[i]);
      assert sha256Str[..2 * (i + 1)] == sha256Str[..2 * i] + HexPair(sha256[i]);
      i := i + 1;
    }
    assert sha256[..32] == sha256[..];
  }
}

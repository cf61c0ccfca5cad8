/**
 * The services underneath: one file of a mounted volume and the kernel heap. Each call may fail,
 * and reads and writes may be short; what is promised beyond that is a premise of the file.
 */
module FileSystem {
  import opened Bytes

  /** How many calls of each kind have failed so far. */
  datatype Errors = Errors(open: nat, stat: nat, read: nat, write: nat, seek: nat, sync: nat, close: nat, unlink: nat)

  predicate Grown(before: Errors, now: Errors) {
    && before.open <= now.open && before.stat <= now.stat && before.read <= now.read
    && before.write <= now.write && before.seek <= now.seek && before.sync <= now.sync
    && before.close <= now.close && before.unlink <= now.unlink
  }

  class File {
    var content: seq<byte>
    var pos: nat
    var open: bool           // the one handle the code uses on it
    ghost var errors: Errors

    const faithful: bool     // what fs_stat reports is right, and fs_read returns 0 only at the end
    const fullReads: bool    // fs_read fills the buffer as far as the file goes, or fails
    const fullWrites: bool   // fs_write stores everything or fails
    const progress: bool     // fs_write stores at least one byte or fails

    ghost predicate Valid()
      reads this
    {
      pos <= |content| < WORD
    }

    method FsStat() returns (rc: int, regular: bool, size: nat)
      requires Valid()
      modifies this`errors
      ensures errors == if rc >= 0 then old(errors) else old(errors).(stat := old(errors).stat + 1)
      ensures rc <= 0 && size < WORD
      ensures faithful ==> regular && size == |content|
    {
      rc, regular, size := *, *, *;
      if rc > 0 {
        rc := 0;
      }
      if faithful || size >= WORD {
        regular, size := true, |content|;
      }
      if rc < 0 {
        errors := errors.(stat := errors.stat + 1);
      }
    }

    /** Opening does not truncate; opening twice would be refused. */
    method FsOpen() returns (rc: int)
      requires Valid() && !open
      modifies this`pos, this`open, this`errors
      ensures Valid()
      ensures errors == if rc >= 0 then old(errors) else old(errors).(open := old(errors).open + 1)
      ensures open == (rc >= 0)
      ensures pos == if rc >= 0 then 0 else old(pos)
    {
      rc := *;
      if rc >= 0 {
        pos := 0;
        open := true;
      } else {
        errors := errors.(open := errors.open + 1);
      }
    }

    method FsSync() returns (rc: int)
      requires open
      modifies this`errors
      ensures errors == if rc >= 0 then old(errors) else old(errors).(sync := old(errors).sync + 1)
    {
      rc := *;
      if rc < 0 {
        errors := errors.(sync := errors.sync + 1);
      }
    }

    method FsClose() returns (rc: int)
      requires open
      modifies this`open, this`errors
      ensures errors == if rc >= 0 then old(errors) else old(errors).(close := old(errors).close + 1)
      ensures !open
    {
      rc := *;
      open := false;
      if rc < 0 {
        errors := errors.(close := errors.close + 1);
      }
    }

    method FsSeekStart() returns (rc: int)
      requires Valid() && open
      modifies this`pos, this`errors
      ensures Valid()
      ensures errors == if rc >= 0 then old(errors) else old(errors).(seek := old(errors).seek + 1)
      ensures pos == if rc >= 0 then 0 else old(pos)
    {
      rc := *;
      if rc >= 0 {
        pos := 0;
      } else {
        errors := errors.(seek := errors.seek + 1);
      }
    }

    /** Removes the file; when that fails the file stays as it was. */
    method FsUnlink() returns (rc: int)
      requires Valid() && !open
      modifies this`content, this`pos, this`errors
      ensures Valid()
      ensures errors == if rc >= 0 then old(errors) else old(errors).(unlink := old(errors).unlink + 1)
      ensures rc >= 0 ==> content == []
      ensures rc < 0 ==> content == old(content)
    {
      rc := *;
      if rc >= 0 {
        content, pos := [], 0;
      } else {
        errors := errors.(unlink := errors.unlink + 1);
      }
    }

    /** Reads at most n bytes into the front of buf; a negative result is an error. */
    method FsRead(buf: array<byte>, n: nat) returns (k: int)
      requires Valid() && open && n <= buf.Length
      modifies this`pos, this`errors, buf
      ensures Valid()
      ensures errors == if k >= 0 then old(errors) else old(errors).(read := old(errors).read + 1)
      ensures k < 0 ==> pos == old(pos) && buf[..] == old(buf[..])
      ensures k >= 0 ==>
        && k <= n && pos == old(pos) + k
        && buf[..k] == content[old(pos)..pos]
        && buf[k..] == old(buf[..])[k..]
      ensures k == 0 && faithful && n > 0 ==> pos == |content|
      ensures k >= 0 && fullReads ==> k == n || pos == |content|
    {
      k := *;
      if k > n {
        k := n;
      }
      if k > |content| - pos {
        k := |content| - pos;
      }
      if k == 0 && faithful && n > 0 && pos < |content| {
        k := 1;
      }
      if k < 0 {
        errors := errors.(read := errors.read + 1);
        return;
      }
      if fullReads {
        k := if n < |content| - pos then n else |content| - pos;
      }
      var piece := content[pos..pos + k];
      forall i | 0 <= i < k {
        buf[i] := piece[i];
      }
      assert buf[..k] == piece;
      pos := pos + k;
    }

    /** Writes data, or a prefix of it, at the current position; a failed write may leave anything. */
    method FsWrite(data: seq<byte>) returns (k: int)
      requires Valid() && open
      modifies this`content, this`pos, this`errors
      ensures Valid()
      ensures errors == if k >= 0 then old(errors) else old(errors).(write := old(errors).write + 1)
      ensures k >= 0 ==>
        && k <= |data| && pos == old(pos) + k
        && content == Overlay(old(content), old(pos), data[..k])
      ensures k >= 0 && fullWrites ==> k == |data|
      ensures k == 0 && progress ==> data == []
    {
      k := *;
      if k > |data| || (k >= 0 && fullWrites) {
        k := |data|;
      }
      if k == 0 && progress && data != [] {
        k := 1;
      }
      if pos + k >= WORD {
        k := -28;
      }
      if k < 0 {
        errors := errors.(write := errors.write + 1);
        content := *;
        if |content| >= WORD {
          content := [];
        }
        pos := if pos < |content| then pos else |content|;
        return;
      }
      content := Overlay(content, pos, data[..k]);
      pos := pos + k;
    }
  }

  class Heap {
    ghost var live: set<array<byte>>   // blocks allocated and not yet freed
    ghost var refusals: nat

    method KMalloc(n: nat) returns (p: array?<byte>)
      modifies this
      ensures p != null ==> fresh(p) && p.Length == n && live == old(live) + {p}
      ensures p == null ==> live == old(live)
      ensures refusals == if p != null then old(refusals) else old(refusals) + 1
    {
      var enough: bool := *;
      if !enough {
        refusals := refusals + 1;
        return null;
      }
      p := new byte[n];
      live := live + {p};
    }

    method KFree(p: array<byte>)
      requires p in live
      modifies this
      ensures live == old(live) - {p} && refusals == old(refusals)
    {
      live := live - {p};
    }
  }
}

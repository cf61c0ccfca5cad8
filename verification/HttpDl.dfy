/** Downloading a file over HTTP: the response callback, its progress line, and the whole download. */
module HttpDl {
  import opened Options
  import opened Bytes
  import opened FileSystem
  import Sha256

  const ECONNABORTED: int := -113
  const ECONNRESET: int := -104

  datatype Response = Response(clPresent: bool, contentLength: word, bodyFound: bool, frag: seq<byte>)

  /** One call of the callback: the response so far, whether it is the last call, and the uptime. */
  datatype Event = Event(rsp: Response, final: bool, now: int)

  /** The counters of struct download_ctx. */
  datatype Ctx = Ctx(lastPrint: int, totalWritten: word, totalSize: word, hasSize: bool)

  datatype Line =
    | Progress(time: int, final: bool, bar: string, percent: int, written: word, size: word)
    | Unsized(time: int, final: bool, written: word)

  // ---- Specification ---------------------------------------------------------------------------

  function Body(rsp: Response): seq<byte> {
    if rsp.bodyFound then rsp.frag else []
  }

  function Learn(c: Ctx, rsp: Response): Ctx {
    if rsp.clPresent && !c.hasSize then c.(totalSize := rsp.contentLength, hasSize := true) else c
  }

  function Count(c: Ctx, rsp: Response): Ctx {
    var d := Learn(c, rsp);
    d.(totalWritten := Wrap(d.totalWritten + |Body(rsp)|))
  }

  predicate Prints(c: Ctx, e: Event) {
    e.final || e.now - c.lastPrint >= 1000
  }

  /** The conversion of an unsigned value to a 32-bit int. */
  function ToInt32(x: nat): int {
    var y := Wrap(x);
    if y < 0x8000_0000 then y else y - 0x1_0000_0000
  }

  function Percent(written: word, size: word): (r: int)
    requires size > 0
    ensures r <= 100
  {
    var p := ToInt32(written * 100 / size);
    if p > 100 then 100 else p
  }

  /** C division truncates towards zero. */
  function DivTrunc(a: int, b: int): int
    requires b > 0
  {
    if a >= 0 then a / b else -((-a) / b)
  }

  function Repeat(ch: char, n: nat): (r: string)
    ensures |r| == n && forall i :: 0 <= i < n ==> r[i] == ch
  {
    if n == 0 then "" else Repeat(ch, n - 1) + [ch]
  }

  /** Twenty places, one '=' for every five percent. */
  function Bar(percent: int): (r: string)
    requires percent <= 100
    ensures |r| == 20
  {
    var filled := if percent < 0 then 0 else percent / 5;
    Repeat('=', filled) + Repeat(' ', 20 - filled)
  }

  function LineOf(c: Ctx, e: Event): Line {
    if c.hasSize && c.totalSize > 0 then
      var p := Percent(c.totalWritten, c.totalSize);
      Progress(e.now, e.final, Bar(p), p, c.totalWritten, c.totalSize)
    else
      Unsized(e.now, e.final, c.totalWritten)
  }

  /** The counters after a call whose write succeeded, and the line it printed. */
  function Callback(c: Ctx, e: Event): (Ctx, Option<Line>) {
    var d := Count(c, e.rsp);
    if Prints(c, e) then (d.(lastPrint := e.now), Some(LineOf(d, e))) else (d, None)
  }

  /** After a call of fs_write with result `wrote`, if there was one. */
  function Written(errors: Errors, wrote: int): Errors {
    if wrote < 0 then errors.(write := errors.write + 1) else errors
  }

  // ---- The callback ----------------------------------------------------------------------------

  class DownloadCtx {
    const file: File
    var lastPrintTime: int
    var totalWritten: word
    var totalSize: word
    var hasSize: bool

    function View(): Ctx
      reads this
    {
      Ctx(lastPrintTime, totalWritten, totalSize, hasSize)
    }

    constructor (file: File)
      ensures this.file == file && View() == Ctx(0, 0, 0, false)
    {
      this.file := file;
      lastPrintTime, totalWritten, totalSize, hasSize := 0, 0, 0, false;
    }

    /** The loop that draws the bar into a char[21]. */
    static method DrawBar(percent: int) returns (bar: array<char>)
      requires percent <= 100
      ensures fresh(bar) && bar.Length == 21
      ensures bar[..20] == Bar(percent) && bar[20] == '\0'
    {
      bar := new char[21];
      var filled := DivTrunc(percent, 5);
      var i := 0;
      while i < 20
        invariant 0 <= i <= 20
        invariant forall j :: 0 <= j < i ==> bar[j] == if j < filled then '=' else ' '
      {
        bar[i] := if i < filled then '=' else ' ';
        i := i + 1;
      }
      bar[20] := '\0';
    }

    /** The line printed about the download as it stands. */
    method Report(e: Event) returns (line: Line)
      ensures line == LineOf(View(), e)
    {
      if hasSize && totalSize > 0 {
        var percent := ToInt32(totalWritten * 100 / totalSize);
        if percent > 100 {
          percent := 100;
        }
        var bar := DrawBar(percent);
        line := Progress(e.now, e.final, bar[..20], percent, totalWritten, totalSize);
      } else {
        line := Unsized(e.now, e.final, totalWritten);
      }
    }

    /** Steps 1 and 2 of the callback: the announced size, and the body. */
    method Receive(rsp: Response) returns (wrote: int)
      requires file.Valid() && file.open
      modifies this, file`content, file`pos, file`errors
      ensures file.Valid()
      ensures file.errors == Written(old(file.errors), wrote)
      ensures View() == if wrote < 0 then Learn(old(View()), rsp) else Count(old(View()), rsp)
      ensures wrote >= 0 ==>
        && wrote <= |Body(rsp)| && file.pos == old(file.pos) + wrote
        && file.content == Overlay(old(file.content), old(file.pos), Body(rsp)[..wrote])
      ensures wrote >= 0 && file.fullWrites ==> wrote == |Body(rsp)|
    {
      wrote := 0;
      if rsp.clPresent && !hasSize {
        totalSize := rsp.contentLength;
        hasSize := true;
      }

      if rsp.bodyFound && |rsp.frag| > 0 {
        wrote := file.FsWrite(rsp.frag);
        if wrote < 0 {
          return;
        }
        totalWritten := Wrap(totalWritten + |rsp.frag|);
      }
    }

    /** http_dl_response_cb. `wrote` is the result of fs_write, 0 when there was nothing to write. */
    method ResponseCb(e: Event) returns (rc: int, line: Option<Line>, ghost wrote: int)
      requires file.Valid() && file.open
      modifies this, file`content, file`pos, file`errors
      ensures file.Valid() && rc <= 0
      ensures file.errors == Written(old(file.errors), rc)
      ensures rc == if wrote < 0 then wrote else 0
      ensures rc < 0 ==> View() == Learn(old(View()), e.rsp) && line.None?
      ensures rc == 0 ==> (View(), line) == Callback(old(View()), e)
      ensures rc == 0 ==>
        && wrote <= |Body(e.rsp)| && file.pos == old(file.pos) + wrote
        && file.content == Overlay(old(file.content), old(file.pos), Body(e.rsp)[..wrote])
      ensures rc == 0 && file.fullWrites ==> wrote == |Body(e.rsp)|
    {
      line := None;
      var written := Receive(e.rsp);
      wrote := written;
      if written < 0 {
        rc := written;
        return;
      }

      if e.final || e.now - lastPrintTime >= 1000 {
        lastPrintTime := e.now;
        var text := Report(e);
        line := Some(text);
      }
      rc := 0;
    }
  }

  // ---- A whole download ------------------------------------------------------------------------

  /** The counters and the lines printed after a sequence of calls whose writes all succeeded. */
  function Run(c: Ctx, es: seq<Event>): (Ctx, seq<Line>) {
    if es == [] then (c, [])
    else
      var (d, lines) := Run(c, es[..|es| - 1]);
      var (d', line) := Callback(d, es[|es| - 1]);
      (d', if line.Some? then lines + [line.value] else lines)
  }

  function Bodies(es: seq<Event>): seq<byte> {
    if es == [] then [] else Bodies(es[..|es| - 1]) + Body(es[|es| - 1].rsp)
  }

  /** What fs_write put into the file: the front of every body, as long as its result says. */
  function Stored(es: seq<Event>, writes: seq<int>): seq<byte>
    requires Possible(es, writes)
  {
    if writes == [] then []
    else
      var k := |writes| - 1;
      Stored(es, writes[..k]) + Body(es[k].rsp)[..writes[k]]
  }

  /** One result of fs_write for each call that succeeded. */
  predicate Possible(es: seq<Event>, writes: seq<int>) {
    |writes| <= |es| && forall i :: 0 <= i < |writes| ==> 0 <= writes[i] <= |Body(es[i].rsp)|
  }

  predicate WroteWhole(es: seq<Event>, writes: seq<int>, i: nat)
    requires i < |es|
  {
    (if i < |writes| then writes[i] else 0) == |Body(es[i].rsp)|
  }

  /** The whole body is stored exactly when each of its pieces was written, and written whole. */
  lemma {:induction false} StoredWholeExactly(es: seq<Event>, writes: seq<int>)
    requires Possible(es, writes)
    ensures |Stored(es, writes)| <= |Bodies(es)|
    ensures Stored(es, writes) == Bodies(es) <==> forall i :: 0 <= i < |es| ==> WroteWhole(es, writes, i)
    decreases |es|
  {
    if es != [] {
      var k := |es| - 1;
      var front, body := es[..k], Body(es[k].rsp);
      var earlier, last := writes, body[..0];
      if |writes| == |es| {
        earlier, last := writes[..k], body[..writes[k]];
      }
      StoredOfFront(es, earlier, k);
      StoredWholeExactly(front, earlier);
      assert forall i :: 0 <= i < k ==> WroteWhole(es, writes, i) == WroteWhole(front, earlier, i);
      assert Stored(es, writes) == Stored(front, earlier) + last;
      assert WroteWhole(es, writes, k) <==> |last| == |body|;
      SamePrefix(Stored(front, earlier), Bodies(front), last, body);
    }
  }

  lemma SamePrefix(a: seq<byte>, b: seq<byte>, x: seq<byte>, y: seq<byte>)
    requires |a| <= |b| && x <= y
    ensures a + x == b + y <==> a == b && |x| == |y|
  {
    if a + x == b + y {
      assert |a| == |b| && a == (a + x)[..|a|] && b == (b + y)[..|b|];
    }
  }

  lemma {:induction false} StoredOfFront(es: seq<Event>, writes: seq<int>, k: nat)
    requires |writes| <= k <= |es| && Possible(es, writes)
    ensures Possible(es[..k], writes) && Stored(es[..k], writes) == Stored(es, writes)
  {
    if writes != [] {
      StoredOfFront(es, writes[..|writes| - 1], k);
    }
  }

  lemma PossibleNext(es: seq<Event>, writes: seq<int>, wrote: nat)
    requires Possible(es, writes) && |writes| < |es| && wrote <= |Body(es[|writes|].rsp)|
    ensures Possible(es, writes + [wrote])
  {
  }

  lemma StoredNext(es: seq<Event>, writes: seq<int>, wrote: nat)
    requires Possible(es, writes) && |writes| < |es| && wrote <= |Body(es[|writes|].rsp)|
    ensures Possible(es, writes + [wrote])
    ensures Stored(es, writes + [wrote]) == Stored(es, writes) + Body(es[|writes|].rsp)[..wrote]
  {
    PossibleNext(es, writes, wrote);
    assert (writes + [wrote])[..|writes|] == writes;
  }

  /** The calls that succeeded stored their bodies whole. */
  predicate AllWhole(es: seq<Event>, writes: seq<int>)
    requires Possible(es, writes)
  {
    forall i :: 0 <= i < |writes| ==> writes[i] == |Body(es[i].rsp)|
  }

  lemma WholeNext(es: seq<Event>, writes: seq<int>, wrote: nat)
    requires Possible(es, writes) && Possible(es, writes + [wrote])
    ensures AllWhole(es, writes) && wrote == |Body(es[|writes|].rsp)| ==> AllWhole(es, writes + [wrote])
  {
  }

  lemma RunNext(c: Ctx, es: seq<Event>, i: nat)
    requires i < |es|
    ensures var (d, lines) := Run(c, es[..i]);
      var (d', line) := Callback(d, es[i]);
      Run(c, es[..i + 1]) == (d', if line.Some? then lines + [line.value] else lines)
  {
    assert es[..i + 1][..i] == es[..i];
  }

  /** With no connection, or a full disk, there is a body and nothing of it is stored. */
  lemma NothingStored(rsp: Response, now: int)
    requires Body(rsp) != []
    ensures var es := [Event(rsp, true, now)];
      Stored(es, []) == [] != Bodies(es) && Possible(es, [0]) && Stored(es, [0]) == []
  {
    var es := [Event(rsp, true, now)];
    assert es[..0] == [] && Bodies(es) == Bodies([]) + Body(rsp);
    assert [0][..0] == [];
  }

  /**
   * The next call of the callback, after those that turned the counters `c` into the present ones,
   * printed `lines` and stored `stored` over `base` from `start` on.
   */
  method NextCall(ctx: DownloadCtx, events: seq<Event>, i: nat, lines: seq<Line>,
                  ghost c: Ctx, ghost base: seq<byte>, ghost start: nat, ghost stored: seq<byte>)
    returns (rc: int, more: seq<Line>, ghost wrote: int)
    requires ctx.file.Valid() && ctx.file.open && start <= |base| && i < |events|
    requires (ctx.View(), lines) == Run(c, events[..i])
    requires ctx.file.pos == start + |stored| && ctx.file.content == Overlay(base, start, stored)
    modifies ctx, ctx.file`content, ctx.file`pos, ctx.file`errors
    ensures ctx.file.Valid() && rc <= 0
    ensures ctx.file.errors == Written(old(ctx.file.errors), rc)
    ensures rc < 0 ==> more == lines && ctx.View() == Learn(old(ctx.View()), events[i].rsp)
    ensures rc == 0 ==>
      && (ctx.View(), more) == Run(c, events[..i + 1])
      && 0 <= wrote <= |Body(events[i].rsp)| && ctx.file.pos == start + |stored| + wrote
      && ctx.file.content == Overlay(base, start, stored + Body(events[i].rsp)[..wrote])
    ensures rc == 0 && ctx.file.fullWrites ==> wrote == |Body(events[i].rsp)|
  {
    var line: Option<Line>;
    rc, line, wrote := ctx.ResponseCb(events[i]);
    more := if line.Some? then lines + [line.value] else lines;
    if rc == 0 {
      RunNext(c, events, i);
      OverlayAppend(base, start, stored, Body(events[i].rsp)[..wrote]);
    }
  }

  /**
   * http_client_req: one call of the callback after another, until one fails or the connection is
   * lost, after `delivered` pieces. `writes` are the results of fs_write in the calls that succeeded.
   */
  method HttpClientReq(ctx: DownloadCtx, events: seq<Event>, delivered: nat)
    returns (ret: int, complete: bool, lines: seq<Line>, ghost writes: seq<int>)
    requires ctx.file.Valid() && ctx.file.open
    modifies ctx, ctx.file`content, ctx.file`pos, ctx.file`errors
    ensures ctx.file.Valid()
    ensures Possible(events, writes) && (complete <==> |writes| == |events|)
    ensures ret <= 0 && (ret == 0 <==> complete)
    ensures if ctx.file.errors == old(ctx.file.errors) then |writes| == Min(delivered, |events|)
            else |writes| < Min(delivered, |events|)
    ensures ctx.file.errors == old(ctx.file.errors).(write := ctx.file.errors.write)
    ensures ctx.file.errors.write >= old(ctx.file.errors).write
    ensures complete ==> ctx.file.errors == old(ctx.file.errors)
    // The lines and the counters are those of the calls that succeeded, whether or not all did
    ensures lines == Run(old(ctx.View()), events[..|writes|]).1
    ensures ctx.View() ==
            if ctx.file.errors == old(ctx.file.errors) then Run(old(ctx.View()), events[..|writes|]).0
            else Learn(Run(old(ctx.View()), events[..|writes|]).0, events[|writes|].rsp)
    // And so are the contents, wherever the connection was lost, unless fs_write failed
    ensures ctx.file.errors == old(ctx.file.errors) ==>
      ctx.file.content == Overlay(old(ctx.file.content), old(ctx.file.pos), Stored(events, writes))
    ensures ctx.file.fullWrites ==> AllWhole(events, writes)
  {
    ghost var c, base, start := ctx.View(), ctx.file.content, ctx.file.pos;
    ret, lines, writes := 0, [], [];
    var i := 0;
    assert Overlay(base, start, []) == base;
    assert events[..0] == [];
    while i < |events| && i < delivered
      invariant 0 <= i == |writes| <= |events| && i <= delivered
      invariant ctx.file.Valid() && Possible(events, writes)
      invariant ctx.file.errors == old(ctx.file.errors) && ret == 0
      invariant (ctx.View(), lines) == Run(c, events[..i])
      invariant ctx.file.pos == start + |Stored(events, writes)|
      invariant ctx.file.content == Overlay(base, start, Stored(events, writes))
      invariant ctx.file.fullWrites ==> AllWhole(events, writes)
      decreases |events| - i
    {
      ghost var wrote;
      ret, lines, wrote := NextCall(ctx, events, i, lines, c, base, start, Stored(events, writes));
      if ret < 0 {
        complete := false;
        return;
      }
      StoredNext(events, writes, wrote);
      WholeNext(events, writes, wrote);
      writes := writes + [wrote];
      i := i + 1;
    }
    complete := i == |events|;
    ret := if complete then 0 else ECONNRESET;
  }

  /** http_dl_get_req: the callbacks, if the server is `reachable`, with a new context. */
  method HttpDlGetReq(file: File, events: seq<Event>, reachable: bool, delivered: nat)
    returns (rc: int, complete: bool, lines: seq<Line>, ghost writes: seq<int>)
    requires file.Valid() && file.open && file.pos == 0
    modifies file`content, file`pos, file`errors
    ensures file.Valid() && Possible(events, writes)
    // A lost connection and a failed write are not reported
    ensures rc == if reachable then 0 else ECONNABORTED
    ensures complete <==> reachable && |writes| == |events|
    ensures reachable ==>
      if file.errors == old(file.errors) then |writes| == Min(delivered, |events|)
      else |writes| < Min(delivered, |events|)
    ensures !reachable ==> writes == [] && file.content == old(file.content)
    ensures file.errors == old(file.errors).(write := file.errors.write)
    ensures Grown(old(file.errors), file.errors)
    ensures complete || !reachable ==> file.errors == old(file.errors)
    ensures file.errors == old(file.errors) ==>
      file.content == Overlay(old(file.content), 0, Stored(events, writes))
    ensures lines == Run(Ctx(0, 0, 0, false), events[..|writes|]).1
    ensures file.fullWrites ==> AllWhole(events, writes)
  {
    complete, lines, writes := false, [], [];
    assert events[..0] == [];
    var ctx := new DownloadCtx(file);
    if !reachable {
      return ECONNABORTED, complete, lines, writes;
    }
    var ret;
    ret, complete, lines, writes := HttpClientReq(ctx, events, delivered);
    rc := 0;
  }

  /** The digest goes into a zeroed array; it is printed even when hashing failed. */
  method HashAndPrint(file: File, operation: Sha256.HashOperation, shaBuffer: array<byte>,
                      sha256Str: array<char>)
    returns (shaRc: int)
    requires file.Valid() && !file.open && shaBuffer.Length == Sha256.READ_BUFFER_SIZE && !operation.active
    requires sha256Str.Length == 65
    modifies file`pos, file`open, file`errors, operation, shaBuffer, sha256Str
    ensures file.Valid() && !file.open && !operation.active
    ensures file.errors ==
            old(file.errors).(open := file.errors.open, read := file.errors.read, close := file.errors.close)
    ensures Grown(old(file.errors), file.errors)
    ensures shaRc == 0 <==>
      && operation.errors == old(operation.errors)
      && file.errors.open == old(file.errors).open && file.errors.read == old(file.errors).read
    ensures shaRc != 0 ==> sha256Str[..64] == Sha256.Hex(seq(32, _ => 0))
    ensures shaRc == 0 && file.faithful ==>
      operation.fed == file.content && sha256Str[..64] == Sha256.Hex(operation.hash(file.content))
    ensures sha256Str[64] == '\0'
  {
    var outputSha256 := new byte[32](_ => 0);
    var digest: Sha256.Digest;
    shaRc, digest := Sha256.CalculateFileSha256(file, operation, shaBuffer);
    if shaRc == 0 {
      forall i | 0 <= i < 32 {
        outputSha256[i] := digest[i];
      }
      assert outputSha256[..] == digest;
    } else {
      assert outputSha256[..] == seq(32, _ => 0);
    }
    Sha256.PrintSha256Sum(outputSha256, sha256Str);
  }

  /**
   * http_dl_file: neither the result of the transfer nor that of the hash, `shaRc`, is looked at.
   * The server is `reachable` and sends the first `delivered` pieces, or it is not; `writes` are the
   * results of fs_write in the calls that succeeded.
   */
  method HttpDlFile(file: File, events: seq<Event>, reachable: bool, delivered: nat,
                    operation: Sha256.HashOperation, shaBuffer: array<byte>, sha256Str: array<char>)
    returns (rc: int, complete: bool, lines: seq<Line>, shaRc: int,
             ghost fileOpened: bool, ghost writes: seq<int>)
    requires file.Valid() && !file.open && shaBuffer.Length == Sha256.READ_BUFFER_SIZE && !operation.active
    requires sha256Str.Length == 65
    modifies file, operation, shaBuffer, sha256Str
    ensures file.Valid() && !file.open && !operation.active
    // The result tells only whether the file could be opened: a failed connection, a lost one, a
    // failed write, a short write and a failed hash all give 0
    ensures rc <= 0 && (rc == 0 <==> fileOpened)
    ensures !fileOpened ==> file.errors.open == old(file.errors).open + 1
    ensures shaRc == 0 <==>
      && operation.errors == old(operation.errors)
      && file.errors.open == old(file.errors).open && file.errors.read == old(file.errors).read
    ensures shaRc == 0 ==> rc == 0
    ensures Grown(old(file.errors), file.errors)
    ensures complete <==> fileOpened && reachable && |writes| == |events|
    ensures fileOpened && reachable ==>
      if file.errors.write == old(file.errors).write then |writes| == Min(delivered, |events|)
      else |writes| < Min(delivered, |events|)
    ensures !fileOpened || !reachable ==> writes == [] && file.content == old(file.content)
    // So with 0 the whole body is stored exactly when every piece was written, and written whole
    ensures Possible(events, writes)
    ensures Stored(events, writes) == Bodies(events) <==>
            forall i :: 0 <= i < |events| ==> WroteWhole(events, writes, i)
    ensures complete && file.fullWrites ==> Stored(events, writes) == Bodies(events)
    // What was stored lies over the old contents wherever the transfer ended, unless fs_write failed;
    // whatever was behind it stays
    ensures complete ==> file.errors.write == old(file.errors).write
    ensures file.errors.write == old(file.errors).write ==>
      file.content == Overlay(old(file.content), 0, Stored(events, writes))
    ensures file.fullWrites ==> AllWhole(events, writes)
    ensures lines == Run(Ctx(0, 0, 0, false), events[..|writes|]).1
    // The digest printed is that of the bytes now in the file, or all zeros when hashing failed
    ensures rc == 0 && shaRc != 0 ==> sha256Str[..64] == Sha256.Hex(seq(32, _ => 0))
    ensures rc == 0 && shaRc == 0 && file.faithful ==>
      && operation.fed == file.content
      && sha256Str[..64] == Sha256.Hex(operation.hash(file.content)) && sha256Str[64] == '\0'
  {
    complete, lines, shaRc, writes := false, [], -1, [];
    assert events[..0] == [];
    rc := file.FsOpen();
    fileOpened := rc >= 0;
    if rc >= 0 {
      var ret;
      ret, complete, lines, writes := HttpDlGetReq(file, events, reachable, delivered);
      var _ := file.FsClose();
      shaRc := HashAndPrint(file, operation, shaBuffer, sha256Str);
      rc := 0;
    }
    StoredWholeExactly(events, writes);
  }

  // ---- The progress line -----------------------------------------------------------------------

  lemma DivBounds(x: nat, d: nat, q: nat)
    requires d > 0
    ensures 0 <= x / d && (x / d <= q <==> x < d * (q + 1))
  {
    var k := x / d;
    assert d * k <= x < d * k + d;
    if k <= q {
      MulMono(d, k, q);
    } else {
      MulMono(d, q + 1, k);
    }
  }

  lemma {:induction false} MulMono(d: nat, a: nat, b: nat)
    requires a <= b
    ensures d * a <= d * b
    decreases b
  {
    if a < b {
      MulMono(d, a, b - 1);
      assert d * b == d * (b - 1) + d;
    }
  }

  /** The least count for which the quotient does not fit a positive int. */
  function FirstNegative(size: nat): nat {
    (0x8000_0000 * size + 99) / 100
  }

  lemma FirstNegativeIs(written: nat, size: nat)
    ensures written < FirstNegative(size) <==> 100 * written < 0x8000_0000 * size
  {
  }

  lemma SmallInt(q: nat)
    requires q < 0x8000_0000
    ensures ToInt32(q) == q
  {
  }

  lemma LargeInt(q: nat)
    requires 0x8000_0000 <= q < WORD
    ensures ToInt32(q) < 0
  {
  }

  lemma Capped(written: word, size: word, q: nat)
    requires 0 < size && q == written * 100 / size < 0x8000_0000
    ensures Percent(written, size) == Min(100, q)
  {
    SmallInt(q);
  }

  lemma QuotientFits(written: nat, size: nat)
    requires 0 < size && written < FirstNegative(size)
    ensures 0 <= written * 100 / size < 0x8000_0000
  {
    FirstNegativeIs(written, size);
    DivBounds(written * 100, size, 0x7FFF_FFFF);
  }

  lemma QuotientBelow100(written: nat, size: nat)
    requires 0 < size
    ensures written * 100 / size < 100 <==> written < size
  {
    DivBounds(written * 100, size, 99);
  }

  /** Below that count the percentage is the plain quotient, cut off at 100, and it is 100 only from the end on. */
  lemma PercentBelow(written: word, size: word)
    requires 0 < size && written < FirstNegative(size)
    ensures 0 <= Percent(written, size) == Min(100, written * 100 / size)
    ensures Percent(written, size) == 100 <==> written >= size
  {
    QuotientFits(written, size);
    QuotientBelow100(written, size);
    Capped(written, size, written * 100 / size);
  }

  /** Without an overrun it is the plain quotient, for any announced size, and 100 only at the very end. */
  lemma PercentWithin(written: word, size: word)
    requires 0 < size && written <= size
    ensures 0 <= Percent(written, size) == written * 100 / size <= 100
    ensures Percent(written, size) == 100 <==> written == size
  {
    FirstNegativeIs(written, size);
    PercentBelow(written, size);
    DivBounds(written * 100, size, 100);
    assert size * 101 == size * 100 + size;
  }

  /** At that count it is negative. */
  lemma PercentAt(size: word)
    requires 0 < size && FirstNegative(size) < WORD
    ensures Percent(FirstNegative(size), size) < 0
  {
    var written := FirstNegative(size);
    assert 0x8000_0000 * size <= written * 100 <= 0x8000_0000 * size + 99;
    DivBounds(written * 100, size, 0x7FFF_FFFF);
    DivBounds(written * 100, size, 0x8000_0000 + 99);
    LargeInt(written * 100 / size);
  }

  /**
   * Every count gives a percentage between 0 and 100 exactly when 200 bytes or more were announced;
   * then also no count reaches the first negative one.
   */
  lemma PercentExactly(size: word)
    requires size > 0
    ensures (forall written: word :: 0 <= Percent(written, size) <= 100) <==> size >= 200
    ensures FirstNegative(size) >= WORD <==> size >= 200
  {
    if size >= 200 {
      forall written: word ensures 0 <= Percent(written, size) <= 100 {
        PercentBelow(written, size);
      }
    } else {
      PercentAt(size);
    }
  }

  /** A server that announces one byte and sends 21,474,837. */
  lemma PercentNegative()
    ensures Percent(21_474_837, 1) < 0
  {
    PercentAt(1);
  }

  lemma PercentMonotone(a: word, b: word, size: word)
    requires 0 < size && a <= b < FirstNegative(size)
    ensures Percent(a, size) <= Percent(b, size)
  {
    PercentBelow(a, size);
    PercentBelow(b, size);
    DivBounds(a * 100, size, b * 100 / size);
    DivBounds(b * 100, size, b * 100 / size);
  }

  /** The bar shows percent / 5 places filled, none when that is negative, and is full only at 100. */
  lemma BarShape(percent: int)
    requires percent <= 100
    ensures forall i :: 0 <= i < 20 ==> Bar(percent)[i] == if i < percent / 5 then '=' else ' '
    ensures Bar(percent) == Repeat('=', 20) <==> percent == 100
  {
    var bar := Bar(percent);
    if percent < 100 {
      assert bar[19] == ' ' && Repeat('=', 20)[19] == '=';
    } else {
      assert bar == Repeat('=', 20);
    }
  }

  /** The counter neither wraps nor reaches the first count whose percentage is negative. */
  ghost predicate Within(c: Ctx, es: seq<Event>) {
    && c.totalWritten + |Bodies(es)| < WORD
    && forall i :: 0 <= i <= |es| ==> Below(Run(c, es[..i]).0)
  }

  predicate Below(d: Ctx) {
    d.hasSize && d.totalSize > 0 ==> d.totalWritten < FirstNegative(d.totalSize)
  }

  ghost predicate LinesSound(d: Ctx, lines: seq<Line>) {
    && (forall i :: 0 <= i < |lines| && lines[i].Progress? ==>
         && d.hasSize && 0 < lines[i].size == d.totalSize
         && lines[i].written < FirstNegative(lines[i].size) && lines[i].written <= d.totalWritten
         && lines[i].percent == Percent(lines[i].written, lines[i].size)
         && lines[i].percent <= 100 && lines[i].bar == Bar(lines[i].percent))
    && (forall i, j :: 0 <= i < j < |lines| && lines[i].Progress? && lines[j].Progress? ==>
         lines[i].written <= lines[j].written)
  }

  lemma LineSound(d: Ctx, lines: seq<Line>, e: Event)
    requires LinesSound(d, lines) && Below(d)
    ensures LinesSound(d, lines + [LineOf(d, e)])
  {
  }

  lemma CountKeepsSound(d: Ctx, lines: seq<Line>, rsp: Response)
    requires LinesSound(d, lines) && d.totalWritten + |Body(rsp)| < WORD
    ensures LinesSound(Count(d, rsp), lines)
    ensures Count(d, rsp).totalWritten == d.totalWritten + |Body(rsp)|
  {
  }

  lemma {:induction false} RunSound(c: Ctx, es: seq<Event>)
    requires Within(c, es)
    ensures Run(c, es).0.totalWritten == c.totalWritten + |Bodies(es)|
    ensures LinesSound(Run(c, es).0, Run(c, es).1)
    decreases |es|
  {
    if es != [] {
      var k := |es| - 1;
      var front := es[..k];
      assert Within(c, front) by {
        assert forall i :: 0 <= i <= k ==> front[..i] == es[..i];
      }
      RunSound(c, front);
      var (d, lines) := Run(c, front);
      CountKeepsSound(d, lines, es[k].rsp);
      var d' := Count(d, es[k].rsp);
      assert es[..|es|] == es;
      assert Below(d') by {
        var r := Run(c, es[..|es|]).0;
        assert r.totalWritten == d'.totalWritten && r.totalSize == d'.totalSize && r.hasSize == d'.hasSize;
      }
      LineSound(d', lines, es[k]);
    }
  }

  /** The percentage is the quotient cut off at 100, and the bar is full from the announced size on. */
  predicate ShowsProgress(line: Line) {
    line.Progress? ==>
      && 0 < line.size && 0 <= line.percent == Min(100, line.written * 100 / line.size)
      && (line.bar == Repeat('=', 20) <==> line.written >= line.size)
  }

  lemma LineShows(line: Line)
    requires line.Progress? ==>
      && 0 < line.size && line.written < FirstNegative(line.size)
      && line.percent == Percent(line.written, line.size) && line.bar == Bar(line.percent)
    ensures ShowsProgress(line)
  {
    if line.Progress? {
      PercentBelow(line.written, line.size);
      BarShape(line.percent);
    }
  }

  /**
   * Over a whole download that stays below that count, within the announced size or not: every
   * percentage is the quotient cut off at 100, percentages never decrease, the bar shows a fifth of
   * them, and it is full exactly from the announced size on.
   */
  lemma ProgressIsSound(es: seq<Event>)
    requires Within(Ctx(0, 0, 0, false), es)
    ensures var lines := Run(Ctx(0, 0, 0, false), es).1;
      && (forall i :: 0 <= i < |lines| ==> ShowsProgress(lines[i]))
      && (forall i, j :: 0 <= i < j < |lines| && lines[i].Progress? && lines[j].Progress? ==>
           lines[i].percent <= lines[j].percent)
  {
    var c := Ctx(0, 0, 0, false);
    var (d, lines) := Run(c, es);
    RunSound(c, es);
    SoundShows(d, lines);
  }

  lemma SoundShows(d: Ctx, lines: seq<Line>)
    requires LinesSound(d, lines)
    ensures forall i :: 0 <= i < |lines| ==> ShowsProgress(lines[i])
    ensures forall i, j :: 0 <= i < j < |lines| && lines[i].Progress? && lines[j].Progress? ==>
              lines[i].percent <= lines[j].percent
  {
    forall i | 0 <= i < |lines| ensures ShowsProgress(lines[i]) {
      LineShows(lines[i]);
    }
    forall i, j | 0 <= i < j < |lines| && lines[i].Progress? && lines[j].Progress?
      ensures lines[i].percent <= lines[j].percent
    {
      PercentMonotone(lines[i].written, lines[j].written, lines[i].size);
    }
  }

  /** No announced size is between 1 and 199 bytes. */
  predicate Ample(es: seq<Event>) {
    forall i :: 0 <= i < |es| ==> SizeAmple(es[i].rsp.contentLength)
  }

  predicate SizeAmple(size: word) {
    size == 0 || size >= 200
  }

  lemma {:induction false} AmpleRun(c: Ctx, es: seq<Event>)
    requires SizeAmple(c.totalSize) && Ample(es)
    ensures SizeAmple(Run(c, es).0.totalSize)
    decreases |es|
  {
    if es != [] {
      AmpleRun(c, es[..|es| - 1]);
    }
  }

  /** Then nothing but the wrap of the counter can spoil the progress shown. */
  lemma AmpleIsWithin(es: seq<Event>)
    requires Ample(es) && |Bodies(es)| < WORD
    ensures Within(Ctx(0, 0, 0, false), es)
  {
    var c := Ctx(0, 0, 0, false);
    forall i | 0 <= i <= |es| ensures Below(Run(c, es[..i]).0) {
      AmpleRun(c, es[..i]);
      var size := Run(c, es[..i]).0.totalSize;
      if size > 0 {
        PercentExactly(size);
      }
    }
  }

  /** The uptime never runs backwards. */
  predicate Clocked(start: int, es: seq<Event>) {
    && (forall i :: 0 <= i < |es| ==> start <= es[i].now)
    && (forall i, j :: 0 <= i < j < |es| ==> es[i].now <= es[j].now)
  }

  /** Lines other than the last are at least a second apart. */
  lemma {:induction false} Throttled(c: Ctx, es: seq<Event>)
    requires Clocked(c.lastPrint, es)
    ensures var (d, lines) := Run(c, es);
      && c.lastPrint <= d.lastPrint && (es != [] ==> d.lastPrint <= es[|es| - 1].now) && (es == [] ==> d == c)
      && (forall i :: 0 <= i < |lines| ==> lines[i].time <= d.lastPrint)
      && (forall i :: 0 <= i < |lines| && !lines[i].final ==> lines[i].time - c.lastPrint >= 1000)
      && (forall i, j :: 0 <= i < j < |lines| && !lines[j].final ==> lines[j].time - lines[i].time >= 1000)
    decreases |es|
  {
    if es != [] {
      Throttled(c, es[..|es| - 1]);
    }
  }
}

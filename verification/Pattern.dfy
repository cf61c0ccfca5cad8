/** The test pattern of lfs.c and how the pattern file changes from boot to boot. */
module Pattern {
  import opened Bytes
  import opened FileSystem

  const TEST_FILE_SIZE: nat := 547

  // ---- The pattern -----------------------------------------------------------------------------

  /** The counter that init_pattern writes at index i, a multiple of 8. */
  function Counter(i: nat): byte {
    (i / 8 + 1) % 256
  }

  lemma CounterNext(i: nat)
    ensures Counter(i + 8) == (Counter(i) + 1) % 256
  {
    AddMod(i / 8 + 1, 1);
  }

  lemma AddMod(x: nat, y: nat)
    ensures (x % 256 + y) % 256 == (x + y) % 256
  {
    var q, z := x / 256, x % 256 + y;
    var p, r := z / 256, z % 256;
    assert x + y == 256 * (q + p) + r;
    QuotientUnique(256, q + p, r, (x + y) / 256, (x + y) % 256);
  }

  lemma Parity(t: nat)
    ensures (t % 256) % 2 == t % 2
  {
    var q, h, r := t / 256, (t % 256) / 2, (t % 256) % 2;
    assert t == 2 * (128 * q + h) + r;
    QuotientUnique(2, 128 * q + h, r, t / 2, t % 2);
  }

  /** What init_pattern leaves: a counter at every eighth byte, 0x55 between, 0xAA at the end. */
  function Fresh(size: nat): (r: seq<byte>)
    ensures |r| == size
  {
    seq(size, i requires 0 <= i < size =>
      if i == size - 1 then 0xAA else if i % 8 == 0 then Counter(i) else 0x55)
  }

  /** The byte that incr_pattern writes between the counters. */
  function Fill(p: seq<byte>): byte
    requires |p| > 0
  {
    if p[0] % 2 == 0 then 0xAA else 0x55
  }

  /** One call of incr_pattern. */
  function Incr(p: seq<byte>, inc: byte): (r: seq<byte>)
    requires |p| > 0
    ensures |r| == |p|
  {
    seq(|p|, i requires 0 <= i < |p| =>
      if i == |p| - 1 || i % 8 == 0 then (p[i] + inc) % 256 else Fill(p))
  }

  function Iterate(p: seq<byte>, inc: byte, k: nat): (r: seq<byte>)
    requires |p| > 0
    ensures |r| == |p|
  {
    if k == 0 then p else Incr(Iterate(p, inc, k - 1), inc)
  }

  /** A byte that started as `base` after k increments. */
  function Shifted(base: nat, inc: byte, k: nat): byte {
    (base + inc * k) % 256
  }

  lemma ShiftedNext(base: nat, inc: byte, k: nat)
    ensures (Shifted(base, inc, k) + inc) % 256 == Shifted(base, inc, k + 1)
  {
    assert inc * (k + 1) == inc * k + inc;
    AddMod(base + inc * k, inc);
  }

  lemma ShiftedFirst(base: byte, inc: byte)
    ensures Shifted(base, inc, 0) == base
  {
    assert inc * 0 == 0;
  }

  /** Byte i after k calls; the fill looks at byte 0 as it was before the last of them. */
  function Cell(size: nat, inc: byte, k: nat, i: nat): byte
    requires i < size
  {
    if i == size - 1 then Shifted(0xAA, inc, k)
    else if i % 8 == 0 then Shifted(i / 8 + 1, inc, k)
    else if k > 0 && Shifted(1, inc, k - 1) % 2 == 0 then 0xAA
    else 0x55
  }

  function Closed(size: nat, inc: byte, k: nat): (r: seq<byte>)
    ensures |r| == size
  {
    seq(size, i requires 0 <= i < size => Cell(size, inc, k, i))
  }

  lemma CellStep(size: nat, inc: byte, k: nat, p: seq<byte>, i: nat)
    requires i < size == |p| && p[i] == Cell(size, inc, k, i) && p[0] == Cell(size, inc, k, 0)
    ensures Incr(p, inc)[i] == Cell(size, inc, k + 1, i)
  {
    if i == size - 1 {
      ShiftedNext(0xAA, inc, k);
    } else if i % 8 == 0 {
      ShiftedNext(i / 8 + 1, inc, k);
    }
  }

  lemma ClosedStep(size: nat, inc: byte, k: nat)
    requires size > 0
    ensures Incr(Closed(size, inc, k), inc) == Closed(size, inc, k + 1)
  {
    forall i | 0 <= i < size ensures Incr(Closed(size, inc, k), inc)[i] == Closed(size, inc, k + 1)[i] {
      CellStep(size, inc, k, Closed(size, inc, k), i);
    }
  }

  lemma ClosedStart(size: nat, inc: byte)
    ensures Closed(size, inc, 0) == Fresh(size)
  {
    forall i | 0 <= i < size ensures Cell(size, inc, 0, i) == Fresh(size)[i] {
      ShiftedFirst(0xAA, inc);
      assert inc * 0 == 0;
    }
  }

  /** For every size and increment, and any number of calls. */
  lemma {:induction false} ClosedForm(size: nat, inc: byte, k: nat)
    requires size > 0
    ensures Iterate(Fresh(size), inc, k) == Closed(size, inc, k)
  {
    if k == 0 {
      ClosedStart(size, inc);
    } else {
      ClosedForm(size, inc, k - 1);
      ClosedStep(size, inc, k - 1);
    }
  }

  /** With increment 1 the fill alternates, except that the first two patterns both have 0x55. */
  function CellByOnes(size: nat, k: nat, i: nat): byte
    requires i < size
  {
    if i == size - 1 then (0xAA + k) % 256
    else if i % 8 == 0 then (i / 8 + 1 + k) % 256
    else if k > 0 && k % 2 == 0 then 0xAA
    else 0x55
  }

  lemma CellOnes(size: nat, k: nat, i: nat)
    requires i < size
    ensures Cell(size, 1, k, i) == CellByOnes(size, k, i)
  {
    if k > 0 {
      Parity(k);
    }
  }

  lemma ClosedFormByOnes(size: nat, k: nat, i: nat)
    requires i < size
    ensures Iterate(Fresh(size), 1, k)[i] == CellByOnes(size, k, i)
  {
    ClosedForm(size, 1, k);
    CellOnes(size, k, i);
  }

  /** Between two multiples of eight there is none. */
  lemma NextMultiple(i: nat, j: nat)
    requires i % 8 == 0 && j % 8 == 0 && i < j
    ensures i + 8 <= j
  {
  }

  method InitPattern(p: array<byte>)
    requires 0 < p.Length < 0x1_0000
    modifies p
    ensures p[..] == Fresh(p.Length)
  {
    var v: byte := 1;
    forall i | 0 <= i < p.Length {
      p[i] := 0x55;
    }
    var i := 0;
    while i < p.Length
      invariant 0 <= i && i % 8 == 0 && v == Counter(i)
      invariant forall j :: 0 <= j < p.Length ==> p[j] == if j < i && j % 8 == 0 then Counter(j) else 0x55
    {
      CounterNext(i);
      forall j | i < j < i + 8 ensures j % 8 != 0 {
        if j % 8 == 0 {
          NextMultiple(i, j);
        }
      }
      p[i] := v;
      v := (v + 1) % 256;
      i := i + 8;
    }
    p[p.Length - 1] := 0xAA;
  }

  method IncrPattern(p: array<byte>, inc: byte)
    requires 0 < p.Length < 0x1_0000
    modifies p
    ensures p[..] == Incr(old(p[..]), inc)
  {
    var fill: byte := 0x55;
    if p[0] % 2 == 0 {
      fill := 0xAA;
    }
    var i := 0;
    while i < p.Length - 1
      invariant 0 <= i <= p.Length - 1
      invariant forall j :: 0 <= j < i ==> p[j] == Incr(old(p[..]), inc)[j]
      invariant forall j :: i <= j < p.Length ==> p[j] == old(p[..])[j]
    {
      if i % 8 == 0 {
        p[i] := (p[i] + inc) % 256;
      } else {
        p[i] := fill;
      }
      i := i + 1;
    }
    p[p.Length - 1] := (p[p.Length - 1] + inc) % 256;
  }

  /** print_pattern shows every byte once and in order: rows of sixteen, then the rest. */
  method PrintPattern(p: array<byte>) returns (shown: seq<byte>)
    ensures shown == p[..]
  {
    shown := [];
    var i, j, k := 0, p.Length / 16, 0;
    while k < j
      invariant 0 <= k <= j && i == 16 * k && shown == p[..i]
    {
      shown := shown + p[i..i + 8];
      shown := shown + p[i + 8..i + 16];
      i := i + 16;
      k := k + 1;
    }
    while i < p.Length
      invariant 0 <= i <= p.Length && shown == p[..i]
    {
      shown := shown + [p[i]];
      i := i + 1;
    }
    assert p[..i] == p[..];
  }

  // ---- The pattern file ------------------------------------------------------------------------

  /** What one run makes of the file, for a file of any length and whatever the static buffer held. */
  function NextContents(content: seq<byte>, buffer: seq<byte>): seq<byte>
    requires |buffer| == TEST_FILE_SIZE
  {
    if content == [] then Fresh(TEST_FILE_SIZE)
    else
      var k := if |content| < TEST_FILE_SIZE then |content| else TEST_FILE_SIZE;
      Overlay(content, 0, Incr(content[..k] + buffer[k..], 1))
  }

  /** A file of the right length depends on its own contents alone. */
  lemma NextOfFullFile(content: seq<byte>, buffer: seq<byte>)
    requires |content| == |buffer| == TEST_FILE_SIZE
    ensures NextContents(content, buffer) == Incr(content, 1)
  {
    assert content[..TEST_FILE_SIZE] + buffer[TEST_FILE_SIZE..] == content;
  }

  /** A run in which everything completes in full. */
  lemma WroteNext(content: seq<byte>, buffer: seq<byte>, created: bool, got: nat, now: seq<byte>, stored: nat)
    requires |buffer| == |now| == TEST_FILE_SIZE && got <= TEST_FILE_SIZE && got <= |content|
    requires stored <= TEST_FILE_SIZE
    requires now == if created then Fresh(TEST_FILE_SIZE) else Incr(content[..got] + buffer[got..], 1)
    ensures (created <==> content == []) && (created || got == TEST_FILE_SIZE || got == |content|)
            && stored == TEST_FILE_SIZE ==>
              Overlay(content, 0, now[..stored]) == NextContents(content, buffer)
  {
    if stored == TEST_FILE_SIZE {
      assert now[..stored] == now;
      assert content == [] ==> Overlay(content, 0, now) == now;
    }
  }

  /** The branch for a file that is there. */
  method ReadAndIncr(file: File, buffer: array<byte>) returns (rc: int)
    requires file.Valid() && file.open && file.pos == 0 && buffer.Length == TEST_FILE_SIZE
    modifies file`pos, file`errors, buffer
    ensures file.Valid()
    ensures file.errors == if rc >= 0 then old(file.errors) else old(file.errors).(read := old(file.errors).read + 1)
    ensures rc >= 0 ==>
      && rc <= TEST_FILE_SIZE && rc <= |file.content|
      && buffer[..] == Incr(file.content[..rc] + old(buffer[..])[rc..], 1)
    ensures rc >= 0 && file.fullReads ==> rc == TEST_FILE_SIZE || rc == |file.content|
  {
    rc := file.FsRead(buffer, TEST_FILE_SIZE);
    if rc >= 0 {
      assert buffer[..] == buffer[..rc] + buffer[rc..];
      IncrPattern(buffer, 1);
    }
  }

  /**
   * littlefs_binary_file_adj; `buffer` is the static file_test_pattern. `created` tells whether stat
   * found an empty file, `got` how much fs_read read and `stored` how much fs_write wrote.
   */
  method LittlefsBinaryFileAdj(file: File, buffer: array<byte>)
    returns (rc: int, ghost created: bool, ghost got: nat, ghost stored: nat)
    requires file.Valid() && !file.open && buffer.Length == TEST_FILE_SIZE
    modifies file, buffer
    ensures file.Valid() && !file.open && rc <= 0
    // It returns 0 exactly when no call fails; short reads and short writes are success, and leave this
    ensures rc == 0 <==> file.errors == old(file.errors)
    ensures got <= TEST_FILE_SIZE && got <= |old(file.content)| && stored <= TEST_FILE_SIZE
    ensures rc == 0 ==>
      && buffer[..] == (if created then Fresh(TEST_FILE_SIZE)
                        else Incr(old(file.content)[..got] + old(buffer[..])[got..], 1))
      && file.content == Overlay(old(file.content), 0, buffer[..stored])
    ensures rc == 0 && file.faithful && file.fullReads && file.fullWrites ==>
      file.content == NextContents(old(file.content), old(buffer[..]))
  {
    created, got, stored := false, 0, 0;
    rc := file.FsOpen();
    if rc < 0 {
      return;
    }
    var regular: bool;
    var size: nat;
    rc, regular, size := file.FsStat();
    label out: {
      if rc < 0 {
        break out;
      }
      created := rc == 0 && regular && size == 0;
      if rc == 0 && regular && size == 0 {
        InitPattern(buffer);
      } else {
        rc := ReadAndIncr(file, buffer);
        if rc < 0 {
          break out;
        }
        got := rc;
      }
      var shown := PrintPattern(buffer);

      rc := file.FsSeekStart();
      if rc < 0 {
        break out;
      }
      rc := file.FsWrite(buffer[..]);
      if rc >= 0 {
        stored := rc;
        assert buffer[..][..rc] == buffer[..rc];
        WroteNext(old(file.content), old(buffer[..]), created, got, buffer[..], stored);
      }
    }
    var ret := file.FsClose();
    if ret < 0 {
      rc := ret;
      return;
    }
    rc := if rc < 0 then rc else 0;
  }

  /** The file after n runs in which every file operation completed in full. */
  function AfterRuns(n: nat): (r: seq<byte>)
    ensures n > 0 ==> |r| == TEST_FILE_SIZE
  {
    if n == 0 then [] else NextContents(AfterRuns(n - 1), seq(TEST_FILE_SIZE, _ => 0))
  }

  lemma {:induction false} AfterRunsIterate(n: nat)
    requires n > 0
    ensures AfterRuns(n) == Iterate(Fresh(TEST_FILE_SIZE), 1, n - 1)
  {
    if n > 1 {
      AfterRunsIterate(n - 1);
      NextOfFullFile(AfterRuns(n - 1), seq(TEST_FILE_SIZE, _ => 0));
    }
  }

  /** After n runs the file is the closed form with n - 1 increments. */
  lemma AfterRunsClosed(n: nat, i: nat)
    requires n > 0 && i < TEST_FILE_SIZE
    ensures AfterRuns(n)[i] == CellByOnes(TEST_FILE_SIZE, n - 1, i)
  {
    AfterRunsIterate(n);
    ClosedFormByOnes(TEST_FILE_SIZE, n - 1, i);
  }

  lemma FirstBytes(n: nat)
    requires n > 0
    ensures AfterRuns(n)[0] == n % 256
    ensures AfterRuns(n)[1] == if n > 1 && n % 2 == 1 then 0xAA else 0x55
  {
    AfterRunsClosed(n, 0);
    AfterRunsClosed(n, 1);
    OddBefore(n);
  }

  lemma OddBefore(n: nat)
    requires n > 0
    ensures (n - 1) % 2 == 0 <==> n % 2 == 1
  {
  }

  lemma SameSum(m: nat, n: nat, c: nat)
    requires m % 256 == n % 256
    ensures (m + c) % 256 == (n + c) % 256
  {
    AddMod(m, c);
    AddMod(n, c);
  }

  lemma SameCounter(m: nat, n: nat, c: nat)
    requires m > 0 && n > 0 && m % 256 == n % 256
    ensures (c + 1 + (m - 1)) % 256 == (c + 1 + (n - 1)) % 256
  {
    SameSum(m, n, c);
    assert c + 1 + (m - 1) == m + c && c + 1 + (n - 1) == n + c;
  }

  lemma SameFill(m: nat, n: nat)
    requires m > 0 && n > 0 && m % 256 == n % 256
    ensures (m - 1) % 2 == (n - 1) % 2
  {
    Parity(m);
    Parity(n);
    OddBefore(m);
    OddBefore(n);
  }

  lemma SameCell(m: nat, n: nat, i: nat)
    requires m > 1 && n > 1 && m % 256 == n % 256 && i < TEST_FILE_SIZE
    ensures CellByOnes(TEST_FILE_SIZE, m - 1, i) == CellByOnes(TEST_FILE_SIZE, n - 1, i)
  {
    if i == TEST_FILE_SIZE - 1 {
      SameCounter(m, n, 0xA9);
    } else if i % 8 == 0 {
      SameCounter(m, n, i / 8);
    } else {
      SameFill(m, n);
    }
  }

  lemma SameFile(m: nat, n: nat)
    requires m > 1 && n > 1 && m % 256 == n % 256
    ensures AfterRuns(m) == AfterRuns(n)
  {
    forall i | 0 <= i < TEST_FILE_SIZE ensures AfterRuns(m)[i] == AfterRuns(n)[i] {
      AfterRunsClosed(m, i);
      AfterRunsClosed(n, i);
      SameCell(m, n, i);
    }
  }

  /** What the first two bytes say about the number of runs. */
  lemma SameOnlyIf(m: nat, p: seq<byte>, n: nat, q: seq<byte>)
    requires 0 < m && 0 < n && |p| > 1 && |q| > 1
    requires p[0] == m % 256 && p[1] == if m > 1 && m % 2 == 1 then 0xAA else 0x55
    requires q[0] == n % 256 && q[1] == if n > 1 && n % 2 == 1 then 0xAA else 0x55
    ensures p == q && m != n ==> m > 1 && n > 1 && m % 256 == n % 256
  {
    Parity(m);
    Parity(n);
  }

  /**
   * The file repeats every 256 runs from the second run on and never sooner; what the first run
   * leaves never comes back, because its fill belongs to an odd step.
   */
  lemma PeriodExactly(m: nat, n: nat)
    requires m > 0 && n > 0
    ensures AfterRuns(m) == AfterRuns(n) <==> m == n || (m > 1 && n > 1 && m % 256 == n % 256)
  {
    if m > 1 && n > 1 && m % 256 == n % 256 {
      SameFile(m, n);
    } else {
      FirstBytes(m);
      FirstBytes(n);
      SameOnlyIf(m, AfterRuns(m), n, AfterRuns(n));
    }
  }
}

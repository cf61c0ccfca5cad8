/** The counters and the lines of a download, told from the calls of the callback alone. */
module HttpHistory {
  import opened Options
  import opened Bytes
  import opened HttpDl

  const NEW: Ctx := Ctx(0, 0, 0, false)

  /** How many bytes of the body have come. */
  function Received(es: seq<Event>): nat {
    if es == [] then 0
    else
      var rsp := es[|es| - 1].rsp;
      Received(es[..|es| - 1]) + (if rsp.bodyFound then |rsp.frag| else 0)
  }

  /** The length that the first response with a length announced. */
  function Announced(es: seq<Event>): Option<word> {
    if es == [] then None
    else if es[0].rsp.clPresent then Some(es[0].rsp.contentLength)
    else Announced(es[1..])
  }

  function LastTime(lines: seq<Line>): int {
    if lines == [] then 0 else lines[|lines| - 1].time
  }

  lemma {:induction false} AnnouncedNext(es: seq<Event>, e: Event)
    ensures Announced(es + [e]) ==
            if Announced(es).Some? then Announced(es)
            else if e.rsp.clPresent then Some(e.rsp.contentLength) else None
    decreases es
  {
    if es == [] {
      assert es + [e] == [e];
    } else {
      assert (es + [e])[1..] == es[1..] + [e];
      AnnouncedNext(es[1..], e);
    }
  }

  lemma WrapAdd(x: nat, y: nat)
    ensures Wrap(Wrap(x) + y) == Wrap(x + y)
  {
    var q, z := x / 0x1_0000_0000, x % 0x1_0000_0000 + y;
    var p, r := z / 0x1_0000_0000, z % 0x1_0000_0000;
    assert x + y == 0x1_0000_0000 * (q + p) + r;
    QuotientUnique(0x1_0000_0000, q + p, r, (x + y) / 0x1_0000_0000, (x + y) % 0x1_0000_0000);
  }

  predicate TotalsAsTold(es: seq<Event>, c: Ctx) {
    && c.totalWritten == Wrap(Received(es))
    && (c.hasSize <==> Announced(es).Some?)
    && (c.hasSize ==> c.totalSize == Announced(es).value)
  }

  predicate CountersAsTold(es: seq<Event>, c: Ctx, lines: seq<Line>) {
    TotalsAsTold(es, c) && c.lastPrint == LastTime(lines)
  }

  /** The line `e` prints, if the calls before it were `es`. */
  predicate IsLineOf(line: Line, es: seq<Event>, e: Event) {
    && line.time == e.now && line.final == e.final && line.written == Wrap(Received(es + [e]))
    && (match Announced(es + [e])
        case Some(size) =>
          if size == 0 then line.Unsized?
          else line.Progress? && line.size == size
               && line.percent == Percent(line.written, size) && line.bar == Bar(line.percent)
        case None => line.Unsized?)
  }

  lemma ReceivedNext(es: seq<Event>, e: Event)
    ensures Received(es + [e]) == Received(es) + (if e.rsp.bodyFound then |e.rsp.frag| else 0)
  {
    assert (es + [e])[..|es|] == es;
  }

  lemma CountTold(es: seq<Event>, e: Event, c: Ctx)
    requires TotalsAsTold(es, c)
    ensures TotalsAsTold(es + [e], Count(c, e.rsp)) && Count(c, e.rsp).lastPrint == c.lastPrint
  {
    AnnouncedNext(es, e);
    ReceivedNext(es, e);
    WrapAdd(Received(es), |Body(e.rsp)|);
  }

  lemma LineTold(es: seq<Event>, e: Event, d: Ctx)
    requires TotalsAsTold(es + [e], d)
    ensures IsLineOf(LineOf(d, e), es, e)
  {
  }

  lemma CallbackTold(es: seq<Event>, e: Event, c: Ctx, lines: seq<Line>)
    requires CountersAsTold(es, c, lines)
    ensures var (d, line) := Callback(c, e);
      && (line.Some? <==> e.final || e.now - LastTime(lines) >= 1000)
      && (line.Some? ==> IsLineOf(line.value, es, e))
      && CountersAsTold(es + [e], d, if line.Some? then lines + [line.value] else lines)
  {
    CountTold(es, e, c);
    LineTold(es, e, Count(c, e.rsp));
  }

  /**
   * Over every download: the counter is what the bodies have brought so far, reduced modulo 2^32, and
   * the size is known exactly when a response announced one, and is the one announced first.
   */
  lemma {:induction false} CountersExactly(es: seq<Event>)
    ensures CountersAsTold(es, Run(NEW, es).0, Run(NEW, es).1)
    decreases |es|
  {
    if es != [] {
      var front, e := es[..|es| - 1], es[|es| - 1];
      assert es == front + [e];
      CountersExactly(front);
      CallbackTold(front, e, Run(NEW, front).0, Run(NEW, front).1);
    }
  }

  /**
   * Exactly which calls print, and what: a final call always, any other exactly when a second has
   * passed since the last line; a progress line from the moment a size that is not 0 is announced.
   */
  lemma LinesExactly(es: seq<Event>, e: Event)
    ensures var lines, more := Run(NEW, es).1, Run(NEW, es + [e]).1;
      if e.final || e.now - LastTime(lines) >= 1000
      then |more| == |lines| + 1 && lines <= more && IsLineOf(more[|lines|], es, e)
      else more == lines
  {
    CountersExactly(es);
    CallbackTold(es, e, Run(NEW, es).0, Run(NEW, es).1);
    assert (es + [e])[..|es|] == es;
  }

  /** A size of 1000 announced and 1000 bytes sent in one final call. */
  lemma WholeInOneCall(frag: seq<byte>, now: int)
    requires |frag| == 1000
    ensures Run(NEW, [Event(Response(true, 1000, true, frag), true, now)]).1 ==
            [Progress(now, true, Repeat('=', 20), 100, 1000, 1000)]
  {
    var e := Event(Response(true, 1000, true, frag), true, now);
    LinesExactly([], e);
    assert [] + [e] == [e];
    var line := Run(NEW, [e]).1[0];
    ReceivedNext([], e);
    PercentWithin(1000, 1000);
    BarShape(100);
    assert Run(NEW, [e]).1 == [line];
  }

  /** The body is the fragments of the responses that carry one, each where the earlier ones end. */
  lemma {:induction false} BodyExactly(es: seq<Event>, i: nat)
    requires i < |es|
    ensures |Bodies(es)| == Received(es) && Received(es[..i]) <= Received(es[..i + 1]) <= Received(es)
    ensures Bodies(es)[Received(es[..i])..Received(es[..i + 1])] ==
            if es[i].rsp.bodyFound then es[i].rsp.frag else []
    decreases |es|
  {
    var k := |es| - 1;
    assert es == es[..k] + [es[k]];
    if i < k {
      BodyExactly(es[..k], i);
      assert es[..k][..i] == es[..i] && es[..k][..i + 1] == es[..i + 1];
    } else {
      BodySize(es[..k]);
      assert es[..i + 1] == es;
    }
  }

  lemma {:induction false} BodySize(es: seq<Event>)
    ensures |Bodies(es)| == Received(es)
    decreases |es|
  {
    if es != [] {
      BodySize(es[..|es| - 1]);
    }
  }
}

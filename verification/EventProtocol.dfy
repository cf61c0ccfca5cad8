/**
 * The event queue of main.c as a protocol: any number of threads send, one thread handles.
 *
 * A sender allocates and fills a message, appends it under the list's mutex, and then bumps the
 * eventfd. The handler waits until poll reports the eventfd ready, reads it (which resets it), and
 * drains the list. Every mutex section, eventfd call and heap call is one step.
 */
module EventProtocol {
  type Pid = nat
  type Ptr = nat

  datatype Msg = Msg(kind: int, len: int, data: int)

  /** Where a sender is inside evt_send. */
  datatype Sender = Filled(msg: Ptr) | Appended

  /** Where the handling thread is: before poll, after it, in the drain loop, or with a message. */
  datatype Consumer = Idle | Ready | Draining | Handling(msg: Ptr)

  datatype State = State(
    heap: map<Ptr, Msg>,         // blocks handed out by k_malloc and not yet freed
    queue: seq<Ptr>,             // evt_list
    counter: nat,                // the eventfd
    senders: map<Pid, Sender>,   // threads inside evt_send
    consumer: Consumer,
    appended: seq<Msg>,          // history: every message ever put on the list, in order
    handled: seq<Msg>)           // history: every message handled and freed, in order

  /** The largest value an eventfd can hold; a write that would pass it blocks. */
  const EVENTFD_MAX: nat := 0xFFFF_FFFF_FFFF_FFFE

  datatype Step =
    | Alloc(pid: Pid, p: Ptr, m: Msg)   // evt_send: allocate and fill
    | Append(pid: Pid)                  // evt_send: append under the mutex
    | Write(pid: Pid)                   // evt_send: eventfd_write, and return
    | Poll                              // poll_loop: poll reports the eventfd readable
    | Read                              // poll_loop: eventfd_read
    | Get                               // evt_handle: take the head under the mutex, or stop
    | Free                              // evt_handle: handle the message and free it

  function Init(): State {
    State(map[], [], 0, map[], Idle, [], [])
  }

  predicate Enabled(s: State, x: Step) {
    match x
    case Alloc(pid, p, _) => pid !in s.senders && p !in s.heap
    case Append(pid) => pid in s.senders && s.senders[pid].Filled? && s.senders[pid].msg in s.heap
    case Write(pid) => pid in s.senders && s.senders[pid].Appended? && s.counter < EVENTFD_MAX
    case Poll => s.consumer.Idle? && s.counter > 0
    case Read => s.consumer.Ready? && s.counter > 0
    case Get => s.consumer.Draining?
    case Free => s.consumer.Handling? && s.consumer.msg in s.heap
  }

  function Next(s: State, x: Step): State
    requires Enabled(s, x)
  {
    match x
    case Alloc(pid, p, m) => s.(heap := s.heap[p := m], senders := s.senders[pid := Filled(p)])
    case Append(pid) =>
      var p := s.senders[pid].msg;
      s.(queue := s.queue + [p], appended := s.appended + [s.heap[p]], senders := s.senders[pid := Appended])
    case Write(pid) => s.(counter := s.counter + 1, senders := s.senders - {pid})
    case Poll => s.(consumer := Ready)
    case Read => s.(consumer := Draining, counter := 0)
    case Get =>
      if s.queue == [] then s.(consumer := Idle)
      else s.(consumer := Handling(s.queue[0]), queue := s.queue[1..])
    case Free =>
      var p := s.consumer.msg;
      s.(handled := s.handled + [s.heap[p]], heap := s.heap - {p}, consumer := Draining)
  }

  predicate IsRun(s: State, xs: seq<Step>)
    decreases xs
  {
    xs == [] || (Enabled(s, xs[0]) && IsRun(Next(s, xs[0]), xs[1..]))
  }

  function After(s: State, xs: seq<Step>): State
    requires IsRun(s, xs)
    decreases xs
  {
    if xs == [] then s else After(Next(s, xs[0]), xs[1..])
  }

  predicate BySender(x: Step) {
    x.Alloc? || x.Append? || x.Write?
  }

  /** Steps of senders and of the drain loop. */
  predicate Drains(xs: seq<Step>) {
    forall i :: 0 <= i < |xs| ==> BySender(xs[i]) || xs[i].Get? || xs[i].Free?
  }

  lemma {:induction false} Concat(s: State, xs: seq<Step>, ys: seq<Step>)
    requires IsRun(s, xs) && IsRun(After(s, xs), ys)
    ensures IsRun(s, xs + ys) && After(s, xs + ys) == After(After(s, xs), ys)
    decreases xs
  {
    if xs == [] {
      assert xs + ys == ys;
    } else {
      Concat(Next(s, xs[0]), xs[1..], ys);
      assert (xs + ys)[1..] == xs[1..] + ys;
    }
  }

  /** The last step of a run, taken off it. */
  lemma {:induction false} Shorten(s: State, xs: seq<Step>, x: Step)
    requires IsRun(s, xs + [x])
    ensures IsRun(s, xs) && Enabled(After(s, xs), x)
    ensures After(s, xs + [x]) == Next(After(s, xs), x)
    decreases xs
  {
    if xs == [] {
      assert xs + [x] == [x];
    } else {
      assert (xs + [x])[1..] == xs[1..] + [x];
      Shorten(Next(s, xs[0]), xs[1..], x);
    }
  }

  /** One more step at the end of a run. */
  lemma Extend(s: State, xs: seq<Step>, x: Step)
    requires IsRun(s, xs) && Enabled(After(s, xs), x)
    ensures IsRun(s, xs + [x]) && After(s, xs + [x]) == Next(After(s, xs), x)
  {
    var t := After(s, xs);
    assert IsRun(Next(t, x), []) && IsRun(t, [x]);
    Concat(s, xs, [x]);
  }

  // ---- Who holds a message ---------------------------------------------------------------------

  ghost predicate HeldBySender(s: State, p: Ptr) {
    exists pid :: pid in s.senders && s.senders[pid] == Filled(p)
  }

  predicate InFlight(s: State, p: Ptr) {
    s.consumer.Handling? && s.consumer.msg == p
  }

  /** Every live block has exactly one holder, and nobody holds anything else. */
  ghost predicate OneHolder(s: State) {
    && (forall p :: HeldBySender(s, p) || p in s.queue || InFlight(s, p) <==> p in s.heap)
    && (forall p :: p in s.queue ==> !HeldBySender(s, p) && !InFlight(s, p))
    && (forall p :: InFlight(s, p) ==> !HeldBySender(s, p))
    && (forall i, j :: 0 <= i < j < |s.queue| ==> s.queue[i] != s.queue[j])
    && (forall a, b :: a in s.senders && b in s.senders && a != b && s.senders[a].Filled? ==>
          s.senders[a] != s.senders[b])
  }

  function Contents(heap: map<Ptr, Msg>, queue: seq<Ptr>): (r: seq<Msg>)
    requires forall p :: p in queue ==> p in heap
    ensures |r| == |queue|
  {
    seq(|queue|, i requires 0 <= i < |queue| => heap[queue[i]])
  }

  function Flight(s: State): seq<Msg>
    requires s.consumer.Handling? ==> s.consumer.msg in s.heap
  {
    if s.consumer.Handling? then [s.heap[s.consumer.msg]] else []
  }

  lemma AllocHolders(s: State, pid: Pid, p: Ptr, m: Msg)
    requires OneHolder(s) && Enabled(s, Alloc(pid, p, m))
    ensures OneHolder(Next(s, Alloc(pid, p, m)))
  {
    var t := Next(s, Alloc(pid, p, m));
    assert t.senders[pid] == Filled(p);
    forall q | HeldBySender(s, q) ensures HeldBySender(t, q) {
      var b :| b in s.senders && s.senders[b] == Filled(q);
      assert t.senders[b] == Filled(q);
    }
    assert forall q :: HeldBySender(t, q) ==> q == p || HeldBySender(s, q);
  }

  lemma AppendHolders(s: State, pid: Pid)
    requires OneHolder(s) && Enabled(s, Append(pid))
    ensures OneHolder(Next(s, Append(pid)))
  {
    var t := Next(s, Append(pid));
    var p := s.senders[pid].msg;
    assert s.senders[pid] == Filled(p) && HeldBySender(s, p);
    forall q | HeldBySender(s, q) && q != p ensures HeldBySender(t, q) {
      var b :| b in s.senders && s.senders[b] == Filled(q);
      assert t.senders[b] == Filled(q);
    }
    assert forall q :: HeldBySender(t, q) ==> HeldBySender(s, q) && q != p;
    assert forall q :: q in t.queue <==> q in s.queue || q == p;
  }

  lemma WriteHolders(s: State, pid: Pid)
    requires OneHolder(s) && Enabled(s, Write(pid))
    ensures OneHolder(Next(s, Write(pid)))
  {
    var t := Next(s, Write(pid));
    forall q | HeldBySender(s, q) ensures HeldBySender(t, q) {
      var b :| b in s.senders && s.senders[b] == Filled(q);
      assert t.senders[b] == Filled(q);
    }
    assert forall q :: HeldBySender(t, q) ==> HeldBySender(s, q);
  }

  lemma GetHolders(s: State)
    requires OneHolder(s) && Enabled(s, Get) && s.queue != []
    ensures OneHolder(Next(s, Get))
  {
    var t := Next(s, Get);
    assert forall q :: HeldBySender(t, q) <==> HeldBySender(s, q);
    assert s.queue == [s.queue[0]] + t.queue;
    assert forall q :: q in s.queue <==> q == s.queue[0] || q in t.queue;
  }

  lemma OneHolderStep(s: State, x: Step)
    requires OneHolder(s) && Enabled(s, x)
    ensures OneHolder(Next(s, x))
  {
    match x
    case Alloc(pid, p, m) => AllocHolders(s, pid, p, m);
    case Append(pid) => AppendHolders(s, pid);
    case Write(pid) => WriteHolders(s, pid);
    case Get =>
      if s.queue != [] {
        GetHolders(s);
      } else {
        assert forall q :: HeldBySender(Next(s, x), q) <==> HeldBySender(s, q);
      }
    case _ =>
      assert forall q :: HeldBySender(Next(s, x), q) <==> HeldBySender(s, q);
  }

  /** Handled, then the one in flight, then the list: that is the order of appending. */
  ghost predicate Fifo(s: State) {
    && (s.consumer.Handling? ==> s.consumer.msg in s.heap)
    && (forall p :: p in s.queue ==> p in s.heap)
    && s.appended == s.handled + Flight(s) + Contents(s.heap, s.queue)
  }

  lemma AllocFifo(s: State, pid: Pid, p: Ptr, m: Msg)
    requires Fifo(s) && Enabled(s, Alloc(pid, p, m))
    ensures Fifo(Next(s, Alloc(pid, p, m)))
  {
    var t := Next(s, Alloc(pid, p, m));
    assert Contents(t.heap, t.queue) == Contents(s.heap, s.queue);
  }

  lemma AppendFifo(s: State, pid: Pid)
    requires Fifo(s) && Enabled(s, Append(pid))
    ensures Fifo(Next(s, Append(pid)))
  {
    var t := Next(s, Append(pid));
    assert Contents(t.heap, t.queue) == Contents(s.heap, s.queue) + [s.heap[s.senders[pid].msg]];
  }

  lemma GetFifo(s: State)
    requires Fifo(s) && Enabled(s, Get)
    ensures Fifo(Next(s, Get))
  {
    var t := Next(s, Get);
    if s.queue != [] {
      assert s.queue[0] in s.queue && forall p :: p in t.queue ==> p in s.queue;
      assert Contents(s.heap, s.queue) == [s.heap[s.queue[0]]] + Contents(t.heap, t.queue);
    }
  }

  lemma FreeFifo(s: State)
    requires Fifo(s) && Enabled(s, Free) && s.consumer.msg !in s.queue
    ensures Fifo(Next(s, Free))
  {
    var t := Next(s, Free);
    assert Contents(t.heap, t.queue) == Contents(s.heap, s.queue);
  }

  lemma FifoStep(s: State, x: Step)
    requires OneHolder(s) && Fifo(s) && Enabled(s, x)
    ensures Fifo(Next(s, x))
  {
    match x
    case Alloc(pid, p, m) => AllocFifo(s, pid, p, m);
    case Append(pid) => AppendFifo(s, pid);
    case Get => GetFifo(s);
    case Free =>
      assert InFlight(s, s.consumer.msg);
      FreeFifo(s);
    case _ =>
  }

  // ---- The wakeup ------------------------------------------------------------------------------

  /** Senders between their append and their eventfd_write. */
  function Writers(s: State): set<Pid> {
    set pid | pid in s.senders && s.senders[pid].Appended?
  }

  function Holders(s: State): set<Pid> {
    set pid | pid in s.senders && s.senders[pid].Filled?
  }

  /** Until the drain begins, every message on the list has its wakeup counted or about to be. */
  predicate Announced(s: State) {
    && (s.consumer.Idle? || s.consumer.Ready? ==> |s.queue| <= s.counter + |Writers(s)|)
    && (s.consumer.Ready? ==> s.counter > 0)
  }

  lemma AllocSets(s: State, pid: Pid, p: Ptr, m: Msg)
    requires Enabled(s, Alloc(pid, p, m))
    ensures Writers(Next(s, Alloc(pid, p, m))) == Writers(s)
    ensures Holders(Next(s, Alloc(pid, p, m))) == Holders(s) + {pid} && pid !in Holders(s)
  {
    var t := Next(s, Alloc(pid, p, m));
    assert t.senders[pid] == Filled(p);
    assert forall b :: b in s.senders ==> b != pid && b in t.senders && t.senders[b] == s.senders[b];
  }

  lemma AppendSets(s: State, pid: Pid)
    requires Enabled(s, Append(pid))
    ensures |Writers(Next(s, Append(pid)))| == |Writers(s)| + 1
    ensures |Holders(Next(s, Append(pid)))| == |Holders(s)| - 1
  {
    assert Writers(Next(s, Append(pid))) == Writers(s) + {pid};
    assert Holders(Next(s, Append(pid))) == Holders(s) - {pid};
  }

  lemma WriteSets(s: State, pid: Pid)
    requires Enabled(s, Write(pid))
    ensures |Writers(Next(s, Write(pid)))| == |Writers(s)| - 1
    ensures Holders(Next(s, Write(pid))) == Holders(s)
  {
    assert Writers(Next(s, Write(pid))) == Writers(s) - {pid};
  }

  lemma SenderSets(s: State, x: Step)
    requires Enabled(s, x)
    ensures |Writers(Next(s, x))| == |Writers(s)| + (if x.Append? then 1 else if x.Write? then -1 else 0)
    ensures |Holders(Next(s, x))| == |Holders(s)| + (if x.Alloc? then 1 else if x.Append? then -1 else 0)
  {
    match x
    case Alloc(pid, p, m) => AllocSets(s, pid, p, m);
    case Append(pid) => AppendSets(s, pid);
    case Write(pid) => WriteSets(s, pid);
    case _ =>
      assert Next(s, x).senders == s.senders;
      assert Writers(Next(s, x)) == Writers(s) && Holders(Next(s, x)) == Holders(s);
  }

  ghost predicate Inv(s: State) {
    OneHolder(s) && Fifo(s) && Announced(s)
  }

  lemma InvStep(s: State, x: Step)
    requires Inv(s) && Enabled(s, x)
    ensures Inv(Next(s, x))
  {
    OneHolderStep(s, x);
    FifoStep(s, x);
    SenderSets(s, x);
  }

  lemma {:induction false} InvRun(s: State, xs: seq<Step>)
    requires Inv(s) && IsRun(s, xs)
    ensures Inv(After(s, xs))
    decreases xs
  {
    if xs != [] {
      InvStep(s, xs[0]);
      InvRun(Next(s, xs[0]), xs[1..]);
    }
  }

  lemma FlightIsLive(s: State, xs: seq<Step>)
    requires Inv(s) && IsRun(s, xs) && After(s, xs).consumer.Handling?
    ensures Enabled(After(s, xs), Free)
  {
    InvRun(s, xs);
    assert InFlight(After(s, xs), After(s, xs).consumer.msg);
  }

  lemma AllHandled(s: State, xs: seq<Step>)
    requires Inv(s) && IsRun(s, xs) && After(s, xs).consumer.Idle? && After(s, xs).queue == []
    ensures After(s, xs).handled == After(s, xs).appended
  {
    InvRun(s, xs);
  }

  lemma Reachable(xs: seq<Step>)
    requires IsRun(Init(), xs)
    ensures Inv(After(Init(), xs))
  {
    assert forall p :: !HeldBySender(Init(), p);
    InvRun(Init(), xs);
  }

  /**
   * No wakeup is lost: before the drain the list is no longer than the counter plus the senders
   * that have still to write, so messages without such a sender make poll report the eventfd.
   */
  lemma NoLostWakeup(xs: seq<Step>)
    requires IsRun(Init(), xs)
    ensures var s := After(Init(), xs);
      && (s.consumer.Idle? || s.consumer.Ready? ==> |s.queue| <= s.counter + |Writers(s)|)
      && (s.consumer.Idle? && s.queue != [] && Writers(s) == {} ==> Enabled(s, Poll))
  {
    Reachable(xs);
  }

  /** When the handler calls eventfd_read the counter is positive, so the call does not block. */
  lemma ReadNeverBlocks(xs: seq<Step>)
    requires IsRun(Init(), xs) && After(Init(), xs).consumer.Ready?
    ensures Enabled(After(Init(), xs), Read)
  {
    Reachable(xs);
  }

  /**
   * Messages are handled in the order they were appended, each exactly once: the history of
   * appends is the handled messages, the one in flight and the list.
   */
  lemma FirstInFirstOut(xs: seq<Step>)
    requires IsRun(Init(), xs)
    ensures var s := After(Init(), xs);
      && OneHolder(s)
      && (s.consumer.Handling? ==> s.consumer.msg in s.heap)
      && s.appended == s.handled + Flight(s) + Contents(s.heap, s.queue)
  {
    Reachable(xs);
    var s := After(Init(), xs);
    assert s.consumer.Handling? ==> InFlight(s, s.consumer.msg);
  }

  /**
   * Every live block is held by its sender, or on the list, or in flight, and by only one of them;
   * what evt_handle frees is live, and afterwards nobody holds it.
   */
  lemma FreedOnce(xs: seq<Step>, p: Ptr)
    requires IsRun(Init(), xs)
    ensures var s := After(Init(), xs);
      && (p in s.heap <==> HeldBySender(s, p) || p in s.queue || InFlight(s, p))
      && !(HeldBySender(s, p) && p in s.queue) && !(HeldBySender(s, p) && InFlight(s, p))
      && !(p in s.queue && InFlight(s, p))
      && (InFlight(s, p) ==>
            && Enabled(s, Free) && p !in Next(s, Free).heap
            && !HeldBySender(Next(s, Free), p) && p !in Next(s, Free).queue && !InFlight(Next(s, Free), p))
  {
    Reachable(xs);
    var s := After(Init(), xs);
    if InFlight(s, p) {
      OneHolderStep(s, Free);
    }
  }

  // ---- Everything sent is handled --------------------------------------------------------------

  /** Steps still possible once no thread begins a new send. */
  function Rank(s: State): nat {
    7 * |Holders(s)| + 4 * |Writers(s)| + 2 * |s.queue|
    + (match s.consumer
       case Idle => 0
       case Ready => 2
       case Draining => 1
       case Handling(_) => 2)
    + (if s.counter > 0 && !s.consumer.Ready? then 3 else 0)
  }

  predicate NoNewSends(xs: seq<Step>) {
    forall i :: 0 <= i < |xs| ==> !xs[i].Alloc?
  }

  /** No step is possible except the beginning of a new send. */
  ghost predicate Quiet(s: State) {
    forall x :: Enabled(s, x) ==> x.Alloc?
  }

  lemma RankDecreases(s: State, x: Step)
    requires Enabled(s, x) && !x.Alloc?
    ensures Rank(Next(s, x)) < Rank(s)
    ensures x.Poll? || x.Read? || x.Get? || x.Free? ==> Rank(Next(s, x)) == Rank(s) - 1
  {
    SenderSets(s, x);
  }

  lemma {:induction false} RankBound(s: State, xs: seq<Step>)
    requires IsRun(s, xs) && NoNewSends(xs)
    ensures |xs| + Rank(After(s, xs)) <= Rank(s)
    ensures s.senders == map[] ==> |xs| + Rank(After(s, xs)) == Rank(s) && After(s, xs).senders == map[]
    decreases xs
  {
    if xs != [] {
      assert !xs[0].Alloc?;
      RankDecreases(s, xs[0]);
      RankBound(Next(s, xs[0]), xs[1..]);
    }
  }

  lemma HeldIsLive(s: State)
    requires OneHolder(s)
    ensures forall pid :: pid in s.senders && s.senders[pid].Filled? ==> s.senders[pid].msg in s.heap
  {
    forall pid | pid in s.senders && s.senders[pid].Filled? ensures s.senders[pid].msg in s.heap {
      assert HeldBySender(s, s.senders[pid].msg);
    }
  }

  lemma QuietIsEmpty(s: State)
    requires Inv(s) && Quiet(s)
    ensures s.senders == map[] && s.queue == [] && s.counter == 0 && s.heap == map[]
    ensures s.handled == s.appended && Rank(s) == 0
  {
    assert !Enabled(s, Poll) && !Enabled(s, Read) && !Enabled(s, Get) && !Enabled(s, Free);
    assert s.consumer.Idle? && s.counter == 0;
    HeldIsLive(s);
    forall pid ensures pid !in s.senders {
      assert !Enabled(s, Append(pid)) && !Enabled(s, Write(pid));
    }
    assert s.senders == map[];
    assert Writers(s) == {} && Holders(s) == {};
    assert forall p :: !HeldBySender(s, p) && !InFlight(s, p);
    assert s.heap == map[];
  }

  /**
   * Whatever the schedule, once no new send begins at most Rank steps are left, and when none is
   * left every message ever appended has been handled, every block freed and the counter is zero.
   */
  lemma EverythingIsHandled(before: seq<Step>, xs: seq<Step>)
    requires IsRun(Init(), before) && IsRun(After(Init(), before), xs) && NoNewSends(xs)
    ensures |xs| <= Rank(After(Init(), before))
    ensures var t := After(After(Init(), before), xs);
            Quiet(t) ==>
              && t.handled == t.appended && t.queue == [] && t.counter == 0
              && t.heap == map[] && t.senders == map[]
  {
    var s := After(Init(), before);
    Reachable(before);
    InvRun(s, xs);
    RankBound(s, xs);
    if Quiet(After(s, xs)) {
      QuietIsEmpty(After(s, xs));
    }
  }

  function Polls(xs: seq<Step>): nat {
    if xs == [] then 0 else (if xs[0].Poll? then 1 else 0) + Polls(xs[1..])
  }

  /** Wakeups the handler can still see when no sender is left. */
  function Wakeups(s: State): nat {
    if s.counter > 0 && !s.consumer.Ready? then 1 else 0
  }

  lemma {:induction false} PollsBound(s: State, xs: seq<Step>)
    requires s.senders == map[] && IsRun(s, xs) && NoNewSends(xs)
    ensures Polls(xs) + Wakeups(After(s, xs)) <= Wakeups(s)
    decreases xs
  {
    if xs != [] {
      assert !xs[0].Alloc?;
      PollsBound(Next(s, xs[0]), xs[1..]);
    }
  }

  lemma {:induction false} AppendedFixed(s: State, xs: seq<Step>)
    requires s.senders == map[] && IsRun(s, xs) && NoNewSends(xs)
    ensures After(s, xs).appended == s.appended
    decreases xs
  {
    if xs != [] {
      assert !xs[0].Alloc?;
      AppendedFixed(Next(s, xs[0]), xs[1..]);
    }
  }

  /**
   * Once the last sender has returned, the handler needs exactly Rank steps and polls at most once
   * more: the drain in progress and one further pass end with an empty list and a zero counter.
   */
  lemma OneMorePass(before: seq<Step>, xs: seq<Step>)
    requires IsRun(Init(), before) && After(Init(), before).senders == map[]
    requires IsRun(After(Init(), before), xs) && NoNewSends(xs)
    ensures var s, t := After(Init(), before), After(After(Init(), before), xs);
      && Polls(xs) <= 1
      && |xs| <= Rank(s)
      && (|xs| == Rank(s) <==> Quiet(t))
      && (Quiet(t) ==> t.queue == [] && t.counter == 0 && t.handled == s.appended)
  {
    var s := After(Init(), before);
    var t := After(s, xs);
    Reachable(before);
    InvRun(s, xs);
    RankBound(s, xs);
    PollsBound(s, xs);
    AppendedFixed(s, xs);
    if Quiet(t) {
      QuietIsEmpty(t);
    }
  }
}

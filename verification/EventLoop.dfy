/** evt_send, evt_handle and the poll table of poll_loop, as they change their data in place. */
module EventLoop {
  import opened Options
  import P = EventProtocol

  function Elements(q: seq<P.Ptr>): set<P.Ptr> {
    set p | p in q
  }

  lemma ElementsSnoc(q: seq<P.Ptr>, p: P.Ptr)
    ensures Elements(q + [p]) == Elements(q) + {p}
  {
  }

  /** What a whole drain does when nobody sends meanwhile. */
  function Drained(s: P.State): P.State
    requires forall p :: p in s.queue ==> p in s.heap
  {
    s.(queue := [], heap := s.heap - Elements(s.queue), consumer := P.Idle,
       handled := s.handled + P.Contents(s.heap, s.queue))
  }

  class EventQueue {
    var heap: map<P.Ptr, P.Msg>
    var evtList: seq<P.Ptr>
    var counter: nat
    var senders: map<P.Pid, P.Sender>
    var consumer: P.Consumer
    var appended: seq<P.Msg>
    var handled: seq<P.Msg>

    function View(): P.State
      reads this
    {
      P.State(heap, evtList, counter, senders, consumer, appended, handled)
    }

    /** evt_init. */
    constructor ()
      ensures View() == P.Init()
    {
      heap, evtList, counter, senders := map[], [], 0, map[];
      consumer, appended, handled := P.Idle, [], [];
    }

    method EvtSendAlloc(pid: P.Pid, p: P.Ptr, kind: int, len: int, data: int)
      requires P.Enabled(View(), P.Alloc(pid, p, P.Msg(kind, len, data)))
      modifies this
      ensures View() == P.Next(old(View()), P.Alloc(pid, p, P.Msg(kind, len, data)))
    {
      heap := heap[p := P.Msg(kind, len, data)];
      senders := senders[pid := P.Filled(p)];
    }

    method EvtSendAppend(pid: P.Pid)
      requires P.Enabled(View(), P.Append(pid))
      modifies this
      ensures View() == P.Next(old(View()), P.Append(pid))
    {
      var msg := senders[pid].msg;
      evtList := evtList + [msg];
      appended := appended + [heap[msg]];
      senders := senders[pid := P.Appended];
    }

    method EvtSendWrite(pid: P.Pid)
      requires P.Enabled(View(), P.Write(pid))
      modifies this
      ensures View() == P.Next(old(View()), P.Write(pid))
    {
      counter := counter + 1;
      senders := senders - {pid};
    }

    method EventfdRead() returns (value: nat)
      requires P.Enabled(View(), P.Read)
      modifies this
      ensures View() == P.Next(old(View()), P.Read)
      ensures value == old(counter) && value > 0
    {
      value := counter;
      counter := 0;
      consumer := P.Draining;
    }

    /** sys_slist_get under the mutex. */
    method SlistGet() returns (node: Option<P.Ptr>)
      requires P.Enabled(View(), P.Get)
      modifies this
      ensures View() == P.Next(old(View()), P.Get)
      ensures node == if old(evtList) == [] then None else Some(old(evtList)[0])
    {
      if evtList == [] {
        consumer := P.Idle;
        return None;
      }
      node := Some(evtList[0]);
      consumer := P.Handling(evtList[0]);
      evtList := evtList[1..];
    }

    /** The tail of the loop body: the message has been handled and is freed. */
    method KFree(msg: P.Ptr)
      requires P.Enabled(View(), P.Free) && msg == consumer.msg
      modifies this
      ensures View() == P.Next(old(View()), P.Free)
    {
      handled := handled + [heap[msg]];
      heap := heap - {msg};
      consumer := P.Draining;
    }

    /** Threads inside evt_send take the steps of `burst` that they can take. */
    method SendersRun(burst: seq<P.Step>) returns (ghost steps: seq<P.Step>)
      modifies this
      ensures P.IsRun(old(View()), steps) && View() == P.After(old(View()), steps) && P.Drains(steps)
      ensures consumer == old(consumer) && (burst == [] ==> steps == [])
    {
      steps := [];
      for i := 0 to |burst|
        invariant P.IsRun(old(View()), steps) && View() == P.After(old(View()), steps) && P.Drains(steps)
        invariant consumer == old(consumer) && (i == 0 ==> steps == [])
      {
        var x := burst[i];
        if P.BySender(x) && P.Enabled(View(), x) {
          P.Extend(old(View()), steps, x);
          SenderStep(x);
          steps := steps + [x];
        }
      }
    }

    method SenderStep(x: P.Step)
      requires P.BySender(x) && P.Enabled(View(), x)
      modifies this
      ensures View() == P.Next(old(View()), x)
    {
      match x
      case Alloc(pid, p, m) => EvtSendAlloc(pid, p, m.kind, m.len, m.data);
      case Append(pid) => EvtSendAppend(pid);
      case Write(pid) => EvtSendWrite(pid);
    }

    /**
     * evt_handle. Other threads run before the list is looked at the i-th time, as `before[i]`
     * says, and while the i-th message is handled, as `during[i]` says.
     */
    method EvtHandle(before: seq<seq<P.Step>>, during: seq<seq<P.Step>>) returns (ghost steps: seq<P.Step>)
      requires consumer == P.Draining && P.Inv(View()) && |before| == |during|
      modifies this
      // What happens is a run of the protocol without a new poll; it ends with an empty list and
      // every message handled
      ensures P.IsRun(old(View()), steps) && View() == P.After(old(View()), steps) && P.Drains(steps)
      ensures consumer == P.Idle && evtList == [] && handled == appended
      // Without other threads it handles and frees what was on the list
      ensures before == [] ==> View() == Drained(old(View()))
    {
      ghost var s := View();
      var n := 0;
      steps := [];
      TakenNone(s);
      while true
        invariant consumer == P.Draining
        invariant P.IsRun(s, steps) && View() == P.After(s, steps) && P.Drains(steps)
        invariant before == [] ==> n <= |s.queue| && View() == Taken(s, n)
        decreases if n < |before| then |before| - n else 0, |evtList|
      {
        var more;
        more, steps :=
          HandleNext(if n < |before| then before[n] else [], if n < |before| then during[n] else [], s, steps);
        if !more {
          break;
        }
        if before == [] {
          TakenNext(s, n);
        }
        n := n + 1;
      }
      P.AllHandled(s, steps);
      if before == [] {
        TakenAll(s, n);
      }
    }

    /** One round of the loop of evt_handle, which has run `earlier` from the state `s` on. */
    method HandleNext(before: seq<P.Step>, during: seq<P.Step>, ghost s: P.State, ghost earlier: seq<P.Step>)
      returns (more: bool, ghost steps: seq<P.Step>)
      requires consumer == P.Draining && P.Inv(s)
      requires P.IsRun(s, earlier) && View() == P.After(s, earlier) && P.Drains(earlier)
      modifies this
      ensures P.IsRun(s, steps) && View() == P.After(s, steps) && P.Drains(steps)
      ensures consumer == if more then P.Draining else P.Idle
      ensures !more ==> evtList == []
      ensures before == [] && during == [] ==>
        && (more <==> old(evtList) != [])
        && P.Enabled(old(View()), P.Get)
        && if !more then View() == P.Next(old(View()), P.Get)
           else P.Enabled(P.Next(old(View()), P.Get), P.Free)
                && View() == P.Next(P.Next(old(View()), P.Get), P.Free)
    {
      ghost var burst := SendersRun(before);
      P.Concat(s, earlier, burst);
      steps := earlier + burst;
      P.Extend(s, steps, P.Get);
      var node := SlistGet();
      steps := steps + [P.Get];
      more := node.Some?;
      if more {
        steps := FinishMessage(node.value, during, s, steps);
      }
    }

    /** Handling a message and freeing it, while other threads run. */
    method FinishMessage(msg: P.Ptr, during: seq<P.Step>, ghost s: P.State, ghost earlier: seq<P.Step>)
      returns (ghost steps: seq<P.Step>)
      requires consumer == P.Handling(msg) && P.Inv(s)
      requires P.IsRun(s, earlier) && View() == P.After(s, earlier) && P.Drains(earlier)
      modifies this
      ensures P.IsRun(s, steps) && View() == P.After(s, steps) && P.Drains(steps) && consumer == P.Draining
      ensures during == [] ==> P.Enabled(old(View()), P.Free) && View() == P.Next(old(View()), P.Free)
    {
      ghost var burst := SendersRun(during);
      P.Concat(s, earlier, burst);
      steps := earlier + burst;
      P.FlightIsLive(s, steps);
      P.Extend(s, steps, P.Free);
      KFree(msg);
      steps := steps + [P.Free];
    }
  }

  /** The state after n rounds of the drain loop. */
  ghost function Taken(s: P.State, n: nat): P.State
    requires n <= |s.queue| && forall p :: p in s.queue ==> p in s.heap
  {
    s.(queue := s.queue[n..], heap := s.heap - Elements(s.queue[..n]), consumer := P.Draining,
       handled := s.handled + P.Contents(s.heap, s.queue)[..n])
  }

  lemma TakenNone(s: P.State)
    requires s.consumer == P.Draining && forall p :: p in s.queue ==> p in s.heap
    ensures Taken(s, 0) == s
  {
    assert s.queue[..0] == [] && Elements([]) == {};
    assert s.heap - {} == s.heap;
  }

  lemma TakenAll(s: P.State, n: nat)
    requires n == |s.queue| && forall p :: p in s.queue ==> p in s.heap
    ensures P.Next(Taken(s, n), P.Get) == Drained(s)
  {
    assert s.queue[..n] == s.queue;
    assert P.Contents(s.heap, s.queue)[..n] == P.Contents(s.heap, s.queue);
  }

  lemma TakenNext(s: P.State, n: nat)
    requires n < |s.queue| && P.OneHolder(s)
    ensures var t := Taken(s, n);
      && P.Enabled(t, P.Get) && P.Enabled(P.Next(t, P.Get), P.Free)
      && P.Next(P.Next(t, P.Get), P.Free) == Taken(s, n + 1)
  {
    var t := Taken(s, n);
    var p := s.queue[n];
    assert p !in s.queue[..n];
    assert t.queue[0] == p && t.queue[1..] == s.queue[n + 1..];
    assert s.queue[..n + 1] == s.queue[..n] + [p];
    ElementsSnoc(s.queue[..n], p);
    assert t.heap - {p} == s.heap - Elements(s.queue[..n + 1]);
    assert P.Contents(s.heap, s.queue)[..n + 1] == P.Contents(s.heap, s.queue)[..n] + [s.heap[p]];
  }

  // ---- The poll table --------------------------------------------------------------------------

  const POLLFD_T_EVENTFD: nat := 0
  const POLLFD_T_SOCKET: nat := 1

  datatype PollFd = PollFd(fd: int, events: int)

  /** The entries with a valid descriptor, in order. */
  function Compact(fds: seq<PollFd>): seq<PollFd> {
    if fds == [] then []
    else if fds[|fds| - 1].fd >= 0 then Compact(fds[..|fds| - 1]) + [fds[|fds| - 1]]
    else Compact(fds[..|fds| - 1])
  }

  function ValidBefore(fds: seq<PollFd>, i: nat): nat
    requires i <= |fds|
  {
    |Compact(fds[..i])|
  }

  /** The loop of poll_loop that fills the table handed to poll. */
  method FillPollTable(gFds: array<PollFd>, pFds: array<PollFd>) returns (n: nat)
    requires gFds != pFds && pFds.Length == gFds.Length
    modifies pFds
    ensures gFds[..] == old(gFds[..])
    ensures n <= pFds.Length && pFds[..n] == Compact(gFds[..])
    ensures pFds[n..] == old(pFds[..])[n..]
  {
    n := 0;
    var i := 0;
    while i < gFds.Length
      invariant 0 <= n <= i <= gFds.Length
      invariant pFds[..n] == Compact(gFds[..i])
      invariant pFds[n..] == old(pFds[..])[n..]
    {
      assert gFds[..i + 1][..i] == gFds[..i];
      if gFds[i].fd >= 0 {
        pFds[n] := PollFd(gFds[i].fd, gFds[i].events);
        n := n + 1;
      }
      i := i + 1;
    }
    assert gFds[..i] == gFds[..];
  }

  lemma {:induction false} CompactPosition(fds: seq<PollFd>, i: nat)
    requires i < |fds| && fds[i].fd >= 0
    ensures ValidBefore(fds, i) < |Compact(fds)| && Compact(fds)[ValidBefore(fds, i)] == fds[i]
  {
    var k := |fds| - 1;
    if i < k {
      CompactPosition(fds[..k], i);
      assert fds[..k][..i] == fds[..i];
    }
  }

  lemma {:induction false} CompactShort(fds: seq<PollFd>)
    ensures |Compact(fds)| <= |fds|
    ensures |Compact(fds)| == |fds| <==> forall j :: 0 <= j < |fds| ==> fds[j].fd >= 0
  {
    if fds != [] {
      var k := |fds| - 1;
      CompactShort(fds[..k]);
      assert forall j :: 0 <= j < k ==> fds[..k][j] == fds[j];
    }
  }

  lemma {:induction false} CompactDistinct(fds: seq<PollFd>)
    requires forall i, j :: 0 <= i < j < |fds| && fds[i].fd >= 0 ==> fds[i].fd != fds[j].fd
    ensures forall e :: e in Compact(fds) ==> e in fds && e.fd >= 0
    ensures forall i, j :: 0 <= i < j < |Compact(fds)| ==> Compact(fds)[i] != Compact(fds)[j]
  {
    if fds != [] {
      var k := |fds| - 1;
      CompactDistinct(fds[..k]);
      assert fds == fds[..k] + [fds[k]];
    }
  }

  /**
   * The entry of slot i is found at index i of the compacted table exactly when every earlier slot
   * is valid. Distinct open descriptors have distinct numbers.
   */
  lemma IndexAgreesExactly(fds: seq<PollFd>, i: nat)
    requires forall a, b :: 0 <= a < b < |fds| && fds[a].fd >= 0 ==> fds[a].fd != fds[b].fd
    requires i < |fds| && fds[i].fd >= 0
    ensures (i < |Compact(fds)| && Compact(fds)[i] == fds[i]) <==> forall j :: 0 <= j < i ==> fds[j].fd >= 0
  {
    CompactPosition(fds, i);
    CompactShort(fds[..i]);
    CompactDistinct(fds);
    assert forall j :: 0 <= j < i ==> fds[..i][j] == fds[j];
  }

  /**
   * With the eventfd valid, which evt_init guarantees, p_fds[POLLFD_T_EVENTFD] is the eventfd, and
   * p_fds[POLLFD_T_SOCKET] is the socket whenever the guard on the socket lets the code read it.
   */
  lemma TypeIndexIsRight(fds: seq<PollFd>)
    requires |fds| == 2 && fds[POLLFD_T_EVENTFD].fd >= 0
    requires fds[POLLFD_T_EVENTFD].fd != fds[POLLFD_T_SOCKET].fd
    ensures |Compact(fds)| > POLLFD_T_EVENTFD && Compact(fds)[POLLFD_T_EVENTFD] == fds[POLLFD_T_EVENTFD]
    ensures fds[POLLFD_T_SOCKET].fd >= 0 ==>
              |Compact(fds)| > POLLFD_T_SOCKET && Compact(fds)[POLLFD_T_SOCKET] == fds[POLLFD_T_SOCKET]
  {
    IndexAgreesExactly(fds, POLLFD_T_EVENTFD);
    if fds[POLLFD_T_SOCKET].fd >= 0 {
      IndexAgreesExactly(fds, POLLFD_T_SOCKET);
    }
  }
}

/** What was sent, told from the steps of a run alone, and that it is what gets handled. */
module EventHistory {
  import opened Options
  import opened EventProtocol

  /** The message a thread has filled in last. */
  function LatestAlloc(xs: seq<Step>, pid: Pid): Option<Msg> {
    if xs == [] then None
    else match xs[|xs| - 1]
      case Alloc(q, _, m) => if q == pid then Some(m) else LatestAlloc(xs[..|xs| - 1], pid)
      case _ => LatestAlloc(xs[..|xs| - 1], pid)
  }

  /** The messages sent, as their senders filled them in, in the order they were put on the list. */
  function Sent(xs: seq<Step>): seq<Msg> {
    if xs == [] then []
    else
      var front := xs[..|xs| - 1];
      match xs[|xs| - 1]
      case Append(pid) =>
        (match LatestAlloc(front, pid)
         case Some(m) => Sent(front) + [m]
         case None => Sent(front))
      case _ => Sent(front)
  }

  /** How often the eventfd was written since it was last read. */
  function Unread(xs: seq<Step>): nat {
    if xs == [] then 0
    else match xs[|xs| - 1]
      case Write(_) => Unread(xs[..|xs| - 1]) + 1
      case Read => 0
      case _ => Unread(xs[..|xs| - 1])
  }

  /** Every message still with its sender is as that sender filled it in. */
  ghost predicate HeldAsFilled(s: State, xs: seq<Step>) {
    forall pid :: pid in s.senders && s.senders[pid].Filled? ==>
      s.senders[pid].msg in s.heap && LatestAlloc(xs, pid) == Some(s.heap[s.senders[pid].msg])
  }

  lemma HeldStep(s: State, xs: seq<Step>, x: Step)
    requires OneHolder(s) && HeldAsFilled(s, xs) && Enabled(s, x)
    ensures HeldAsFilled(Next(s, x), xs + [x])
  {
    var t := Next(s, x);
    assert (xs + [x])[..|xs|] == xs;
    forall pid | pid in t.senders && t.senders[pid].Filled?
      ensures t.senders[pid].msg in t.heap && LatestAlloc(xs + [x], pid) == Some(t.heap[t.senders[pid].msg])
    {
      if pid in s.senders && s.senders[pid] == t.senders[pid] {
        assert HeldBySender(s, s.senders[pid].msg);
        if x.Free? {
          assert InFlight(s, s.consumer.msg);
        }
      }
    }
  }

  lemma SentStep(s: State, xs: seq<Step>, x: Step)
    requires HeldAsFilled(s, xs) && Enabled(s, x)
    requires s.appended == Sent(xs) && s.counter == Unread(xs)
    ensures Next(s, x).appended == Sent(xs + [x]) && Next(s, x).counter == Unread(xs + [x])
  {
    assert (xs + [x])[..|xs|] == xs;
  }

  lemma {:induction false} EveryRunAsSent(xs: seq<Step>)
    requires IsRun(Init(), xs)
    ensures HeldAsFilled(After(Init(), xs), xs)
    ensures After(Init(), xs).appended == Sent(xs) && After(Init(), xs).counter == Unread(xs)
    decreases |xs|
  {
    if xs != [] {
      var front, x := xs[..|xs| - 1], xs[|xs| - 1];
      assert xs == front + [x];
      Shorten(Init(), front, x);
      EveryRunAsSent(front);
      Reachable(front);
      HeldStep(After(Init(), front), front, x);
      SentStep(After(Init(), front), front, x);
    }
  }

  /**
   * Over every run: what has been handled, what is being handled and what is on the list are together
   * what was sent, unchanged and in order; so the messages handled are a front part of those sent, and
   * all of them once nothing but a new send is possible. The eventfd counts the writes since its read.
   */
  lemma HandledAsSent(xs: seq<Step>)
    requires IsRun(Init(), xs)
    ensures var s := After(Init(), xs);
      && (s.consumer.Handling? ==> s.consumer.msg in s.heap) && (forall p :: p in s.queue ==> p in s.heap)
      && Sent(xs) == s.handled + Flight(s) + Contents(s.heap, s.queue)
      && s.handled <= Sent(xs)
      && (Quiet(s) ==> s.handled == Sent(xs))
      && s.counter == Unread(xs)
  {
    EveryRunAsSent(xs);
    Reachable(xs);
    if Quiet(After(Init(), xs)) {
      QuietIsEmpty(After(Init(), xs));
    }
  }
}

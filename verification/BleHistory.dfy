/**
 * The state a run of the scheduler ends in, told from the run itself: what the latest callbacks,
 * calls and timeouts were, and what each further step may then change.
 */
module BleHistory {
  import opened Options
  import opened BleScheduler
  import opened BleProperties

  // ---- Told by the labels alone ----------------------------------------------------------------

  /** The latest call of try_advertising_start, unless the mode-switch handler has ended since. */
  function WakeupAsked(ls: seq<Label>): bool {
    if ls == [] then false
    else match ls[|ls| - 1]
      case TryBegin(_, call, _) => call.wakeup
      case HandlerEnd => false
      case _ => WakeupAsked(ls[..|ls| - 1])
  }

  /** The latest callback that says something about the link. */
  function LinkTold(ls: seq<Label>): Link {
    if ls == [] then Disconnected
    else match ls[|ls| - 1]
      case ConnectedCb(_, NoError) => Connected
      case DisconnectedCb(Some(_)) => Disconnected
      case SecurityCb(true) => SecurityOk
      case _ => LinkTold(ls[..|ls| - 1])
  }

  /** The call a thread is inside of. */
  function CallOf(ls: seq<Label>, tid: Tid): Option<TryCall> {
    if ls == [] then None
    else match ls[|ls| - 1]
      case TryBegin(t, call, _) => if t == tid then Some(call) else CallOf(ls[..|ls| - 1], tid)
      case TryEnd(t) => if t == tid then None else CallOf(ls[..|ls| - 1], tid)
      case _ => CallOf(ls[..|ls| - 1], tid)
  }

  /** How many seconds a call that returns had asked for. */
  function SecondsOf(ls: seq<Label>, tid: Tid): int {
    match CallOf(ls, tid)
    case Some(call) => call.seconds
    case None => 0
  }

  function HandlerRuns(ls: seq<Label>): bool {
    if ls == [] then false
    else match ls[|ls| - 1]
      case HandlerBegin(_) => true
      case HandlerEnd => false
      case _ => HandlerRuns(ls[..|ls| - 1])
  }

  /** Some call has cancelled the handler while it sleeps. */
  function CancelledAsleep(ls: seq<Label>): bool {
    if ls == [] then false
    else match ls[|ls| - 1]
      case TryBegin(_, _, _) => HandlerRuns(ls[..|ls| - 1])
      case HandlerEnd => false
      case _ => CancelledAsleep(ls[..|ls| - 1])
  }

  /**
   * The timeout runs: since it was last cancelled or expired, a call with a duration has returned, the
   * peer has disconnected, or directed advertising has timed out.
   */
  function TimerRuns(ls: seq<Label>): bool {
    if ls == [] then false
    else
      var front := ls[..|ls| - 1];
      match ls[|ls| - 1]
      case TryBegin(_, _, _) => false
      case TryEnd(tid) => if SecondsOf(front, tid) == 0 then TimerRuns(front) else SecondsOf(front, tid) > 0
      case Expire => false
      case ConnectedCb(_, AdvTimeout) => true
      case DisconnectedCb(Some(_)) => true
      case _ => TimerRuns(front)
  }

  /** The handler is due: the timeout has expired, or a negative duration left out the wait. */
  function SwitchDue(ls: seq<Label>): bool {
    if ls == [] then false
    else
      var front := ls[..|ls| - 1];
      match ls[|ls| - 1]
      case TryBegin(_, _, _) => false
      case TryEnd(tid) => SwitchDue(front) || (SecondsOf(front, tid) < 0 && !CancelledAsleep(front))
      case Expire => true
      case HandlerBegin(_) => false
      case _ => SwitchDue(front)
  }

  ghost predicate CallsAsTold(s: State, ls: seq<Label>) {
    && (forall tid :: tid in s.tries <==> CallOf(ls, tid).Some?)
    && (forall tid :: tid in s.tries ==> CallOf(ls, tid) == Some(s.tries[tid]))
  }

  predicate HandlerAsTold(s: State, ls: seq<Label>) {
    s.work.handlerAsleep == HandlerRuns(ls) && s.work.canceling == CancelledAsleep(ls)
  }

  predicate TimeoutAsTold(s: State, ls: seq<Label>) {
    s.work.armed == TimerRuns(ls) && s.work.switchQueued == SwitchDue(ls)
  }

  predicate ModeAsTold(s: State, ls: seq<Label>) {
    s.radio.wakeupMode == WakeupAsked(ls) && s.host.link == LinkTold(ls)
  }

  ghost predicate AsTold(s: State, ls: seq<Label>) {
    CallsAsTold(s, ls) && HandlerAsTold(s, ls) && TimeoutAsTold(s, ls) && ModeAsTold(s, ls)
  }

  lemma CallsStep(s: State, ls: seq<Label>, l: Label)
    requires CallsAsTold(s, ls) && Enabled(s, l)
    ensures CallsAsTold(Next(s, l), ls + [l])
  {
    assert (ls + [l])[..|ls|] == ls;
  }

  lemma AsleepStep(s: State, ls: seq<Label>, l: Label)
    requires s.work.handlerAsleep == HandlerRuns(ls) && Enabled(s, l)
    ensures Next(s, l).work.handlerAsleep == HandlerRuns(ls + [l])
  {
    assert (ls + [l])[..|ls|] == ls;
  }

  lemma CancelStep(s: State, ls: seq<Label>, l: Label)
    requires HandlerAsTold(s, ls) && Enabled(s, l) && (s.work.canceling ==> s.work.handlerAsleep)
    ensures Next(s, l).work.canceling == CancelledAsleep(ls + [l])
  {
    assert (ls + [l])[..|ls|] == ls;
  }

  lemma HandlerStep(s: State, ls: seq<Label>, l: Label)
    requires HandlerAsTold(s, ls) && Enabled(s, l) && (s.work.canceling ==> s.work.handlerAsleep)
    ensures HandlerAsTold(Next(s, l), ls + [l])
  {
    AsleepStep(s, ls, l);
    CancelStep(s, ls, l);
  }

  lemma TimeoutStep(s: State, ls: seq<Label>, l: Label)
    requires CallsAsTold(s, ls) && HandlerAsTold(s, ls) && TimeoutAsTold(s, ls) && Enabled(s, l)
    ensures TimeoutAsTold(Next(s, l), ls + [l])
  {
    assert (ls + [l])[..|ls|] == ls;
  }

  lemma ModeStep(s: State, ls: seq<Label>, l: Label)
    requires ModeAsTold(s, ls) && Enabled(s, l)
    ensures ModeAsTold(Next(s, l), ls + [l])
  {
    assert (ls + [l])[..|ls|] == ls;
  }

  /**
   * Over every run: the wakeup flag, the link status, the calls under way, the timeout and the
   * mode-switch work are what the latest steps that concern them say.
   */
  lemma {:induction false} EveryRunAsTold(bonds: seq<Addr>, ls: seq<Label>)
    requires IsRun(Init(bonds), ls)
    ensures AsTold(After(Init(bonds), ls), ls)
    decreases |ls|
  {
    if ls != [] {
      var front, l := ls[..|ls| - 1], ls[|ls| - 1];
      assert ls == front + [l];
      Shorten(Init(bonds), front, l);
      EveryRunAsTold(bonds, front);
      CoherentRun(Init(bonds), front);
      var s := After(Init(bonds), front);
      CallsStep(s, front, l);
      HandlerStep(s, front, l);
      TimeoutStep(s, front, l);
      ModeStep(s, front, l);
    }
  }

  // ---- What the controller does ----------------------------------------------------------------

  lemma ControllerStep(s: State, l: Label)
    requires Coherent(s) && Enabled(s, l)
    ensures var t := Next(s, l);
      match l
      case AdvWork(startOk) =>
        if s.radio.controller != Off || !startOk then t.radio.controller == s.radio.controller
        else if s.radio.wakeupMode then t.radio.controller == Wakeup
        else if s.radio.lastPaired.None? then t.radio.controller == Pair
        else t.radio.controller == Directed(s.radio.lastPaired.value)
      case TryBegin(_, _, stopOk) => t.radio.controller == if stopOk then Off else s.radio.controller
      case HandlerBegin(stopOk) => t.radio.controller == if stopOk then Off else s.radio.controller
      case DeletePaired(_, stopOk) => t.radio.controller == if stopOk then Off else s.radio.controller
      case RpcStop(stopOk) => t.radio.controller == if stopOk then Off else s.radio.controller
      case ConnectedCb(_, _) => t.radio.controller == Off
      case _ => t.radio.controller == s.radio.controller
  {
  }

  lemma PendingStep(s: State, l: Label)
    requires Coherent(s) && Enabled(s, l)
    ensures Next(s, l).work.advPending <==>
            (s.work.advPending && !l.AdvWork?)
            || (s.radio.controller == Off && (l.TryEnd? || (l.HandlerEnd? && s.host.link.Disconnected?)))
  {
  }

  /**
   * Over every run, what each step does to the controller and to the queued start. The flag
   * is_adv_running plays no part: a start is queued and takes place exactly when the controller is off.
   * An accepted start is a wakeup advertisement exactly when the labels ask for it; otherwise it is
   * pairing exactly when no address is remembered, and directed to that address when one is.
   */
  lemma ControllerExactly(bonds: seq<Addr>, ls: seq<Label>, l: Label)
    requires IsRun(Init(bonds), ls) && Enabled(After(Init(bonds), ls), l)
    ensures var s, t := After(Init(bonds), ls), Next(After(Init(bonds), ls), l);
      && (match l
          case AdvWork(startOk) =>
            if s.radio.controller != Off || !startOk then t.radio.controller == s.radio.controller
            else if WakeupAsked(ls) then t.radio.controller == Wakeup
            else if s.radio.lastPaired.None? then t.radio.controller == Pair
            else t.radio.controller == Directed(s.radio.lastPaired.value)
          case TryBegin(_, _, stopOk) => t.radio.controller == if stopOk then Off else s.radio.controller
          case HandlerBegin(stopOk) => t.radio.controller == if stopOk then Off else s.radio.controller
          case DeletePaired(_, stopOk) => t.radio.controller == if stopOk then Off else s.radio.controller
          case RpcStop(stopOk) => t.radio.controller == if stopOk then Off else s.radio.controller
          case ConnectedCb(_, _) => t.radio.controller == Off
          case _ => t.radio.controller == s.radio.controller)
      && (t.work.advPending <==>
            (s.work.advPending && !l.AdvWork?)
            || (s.radio.controller == Off && (l.TryEnd? || (l.HandlerEnd? && LinkTold(ls) == Disconnected))))
  {
    CoherentRun(Init(bonds), ls);
    EveryRunAsTold(bonds, ls);
    ControllerStep(After(Init(bonds), ls), l);
    PendingStep(After(Init(bonds), ls), l);
  }

  /** Connected, silent, and with no call or start under way. */
  predicate Silent(s: State) {
    !s.host.link.Disconnected? && s.radio.controller == Off && s.tries == map[] && !s.work.advPending
  }

  /** A new call of try_advertising_start, or the end of a link. */
  predicate MayResume(l: Label) {
    l.TryBegin? || (l.DisconnectedCb? && l.dst.Some?)
  }

  predicate NoneResumes(ls: seq<Label>) {
    forall i :: 0 <= i < |ls| ==> !MayResume(ls[i])
  }

  lemma {:induction false} SilentRun(s: State, ls: seq<Label>)
    requires Coherent(s) && Silent(s) && IsRun(s, ls) && NoneResumes(ls)
    ensures Silent(After(s, ls))
    decreases ls
  {
    if ls != [] {
      assert !MayResume(ls[0]);
      CoherentStep(s, ls[0]);
      SilentRun(Next(s, ls[0]), ls[1..]);
    }
  }

  /**
   * Once a device is connected and silent it stays silent, timeouts and mode switches included, until
   * a new call or the end of the link.
   */
  lemma ConnectedStaysSilent(bonds: seq<Addr>, before: seq<Label>, ls: seq<Label>)
    requires IsRun(Init(bonds), before) && Silent(After(Init(bonds), before))
    requires IsRun(After(Init(bonds), before), ls) && NoneResumes(ls)
    ensures After(After(Init(bonds), before), ls).radio.controller == Off
  {
    CoherentRun(Init(bonds), before);
    SilentRun(After(Init(bonds), before), ls);
  }

  // ---- Whom the device remembers ---------------------------------------------------------------

  /** The bond visited last is remembered, or nobody when there is none. */
  predicate RemembersLast(r: Radio, bonds: seq<Addr>) {
    && (r.lastPaired.None? <==> bonds == [])
    && (bonds != [] ==> r.lastPaired == Some(bonds[|bonds| - 1]))
  }

  /** Over every run, which steps change the remembered address, and to what. */
  lemma RememberedExactly(bonds: seq<Addr>, ls: seq<Label>, l: Label)
    requires IsRun(Init(bonds), ls) && Enabled(After(Init(bonds), ls), l)
    ensures var s, t := After(Init(bonds), ls), Next(After(Init(bonds), ls), l);
      if l.TryEnd? || (l.HandlerEnd? && LinkTold(ls) == Disconnected) then RemembersLast(t.radio, s.host.bonds)
      else if l.ConnectedCb? && l.dst.Some? then t.radio.lastPaired == l.dst
      else if l.DeletePaired? then t.radio.lastPaired == None
      else t.radio.lastPaired == s.radio.lastPaired
  {
    EveryRunAsTold(bonds, ls);
  }

  lemma {:induction false} WithoutOne(xs: seq<Addr>, a: Addr, ys: seq<Addr>)
    requires a !in xs && a !in ys
    ensures Without(xs + [a] + ys, a) == xs + ys
    decreases xs
  {
    if xs == [] {
      assert [] + [a] + ys == [a] + ys && ([a] + ys)[1..] == ys && [] + ys == ys;
      WithoutNone(ys, a);
    } else {
      WithoutOne(xs[1..], a, ys);
      assert (xs + [a] + ys)[1..] == xs[1..] + [a] + ys;
      assert [xs[0]] + (xs[1..] + ys) == xs + ys;
    }
  }

  lemma {:induction false} WithoutNone(xs: seq<Addr>, a: Addr)
    requires a !in xs
    ensures Without(xs, a) == xs
    decreases xs
  {
    if xs != [] {
      WithoutNone(xs[1..], a);
      assert [xs[0]] + xs[1..] == xs;
    }
  }

  /**
   * Over every run, what becomes of the bonds: delete_paired takes out the remembered peer alone, and
   * keeps the others in order; nothing else but the host changes them.
   */
  lemma BondsExactly(bonds: seq<Addr>, ls: seq<Label>, l: Label, xs: seq<Addr>, a: Addr, ys: seq<Addr>)
    requires IsRun(Init(bonds), ls) && Enabled(After(Init(bonds), ls), l) && a !in xs && a !in ys
    ensures var s, t := After(Init(bonds), ls), Next(After(Init(bonds), ls), l);
      && (l.BondsChange? ==> t.host.bonds == l.bonds)
      && (l.DeletePaired? && s.radio.lastPaired == Some(a) ==>
            && (s.host.bonds == xs + [a] + ys ==> t.host.bonds == if l.unpairOk then xs + ys else s.host.bonds)
            && (s.host.bonds == xs ==> t.host.bonds == xs))
      && (l.DeletePaired? && s.radio.lastPaired == None ==> t.host.bonds == s.host.bonds)
      && (!l.BondsChange? && !l.DeletePaired? ==> t.host.bonds == s.host.bonds)
  {
    WithoutOne(xs, a, ys);
    WithoutNone(xs, a);
  }

  /** Over every run, which peers have a link over which the host may store a bond. */
  lemma LinksExactly(bonds: seq<Addr>, ls: seq<Label>, l: Label, a: Addr)
    requires IsRun(Init(bonds), ls) && Enabled(After(Init(bonds), ls), l)
    ensures var s, t := After(Init(bonds), ls), Next(After(Init(bonds), ls), l);
      a in t.host.links <==>
        if l.ConnectedCb? && l.err.NoError? && l.dst == Some(a) then true
        else if l.DisconnectedCb? && l.dst == Some(a) then false
        else if l.DeletePaired? && l.unpairOk && s.radio.lastPaired == Some(a) then false
        else a in s.host.links
  {
  }

  // ---- A call that nobody disturbs -------------------------------------------------------------

  function CallRun(tid: Tid, call: TryCall): seq<Label> {
    [TryBegin(tid, call, true)] + [TryEnd(tid)] + [AdvWork(true)]
  }

  /**
   * From every reachable state in which the handler is not asleep, whatever was advertised before: a
   * call that nobody disturbs and the stack accepts ends in the advertising asked for. A wakeup call
   * ends in wakeup advertising, bonds or not; a pairing call in pairing without bonds, and otherwise
   * directed to the last bond. The timeout runs exactly when a positive duration was given.
   */
  lemma CallAdvertises(bonds: seq<Addr>, ls: seq<Label>, tid: Tid, call: TryCall)
    requires IsRun(Init(bonds), ls) && CallOf(ls, tid).None? && !HandlerRuns(ls)
    ensures var s := After(Init(bonds), ls);
      && IsRun(s, CallRun(tid, call))
      && var t := After(s, CallRun(tid, call));
      && (call.wakeup ==> t.radio.controller == Wakeup)
      && (!call.wakeup && s.host.bonds == [] ==> t.radio.controller == Pair)
      && (!call.wakeup && s.host.bonds != [] ==>
            t.radio.controller == Directed(s.host.bonds[|s.host.bonds| - 1]))
      && (t.work.armed <==> call.seconds > 0)
  {
    var s := After(Init(bonds), ls);
    EveryRunAsTold(bonds, ls);
    CoherentRun(Init(bonds), ls);
    CallFrom(s, tid, call);
  }

  lemma CallFrom(s: State, tid: Tid, call: TryCall)
    requires Coherent(s) && tid !in s.tries && !s.work.handlerAsleep
    ensures IsRun(s, CallRun(tid, call))
    ensures var t := After(s, CallRun(tid, call));
      && (t.work.armed <==> call.seconds > 0)
      && (call.wakeup ==> t.radio.controller == Wakeup)
      && (!call.wakeup && s.host.bonds == [] ==> t.radio.controller == Pair)
      && (!call.wakeup && s.host.bonds != [] ==>
            t.radio.controller == Directed(s.host.bonds[|s.host.bonds| - 1]))
  {
    var l0, l1, l2 := TryBegin(tid, call, true), TryEnd(tid), AdvWork(true);
    assert [] + [l0] == [l0];
    Extend(s, [], l0);
    Extend(s, [l0], l1);
    Extend(s, [l0] + [l1], l2);
  }
}

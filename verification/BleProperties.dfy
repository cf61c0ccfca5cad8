/** What the advertising scheduler keeps over every interleaving of its steps. */
module BleProperties {
  import opened Options
  import opened BleScheduler

  // ---- Never started twice ---------------------------------------------------------------------

  /** is_adv_running tells exactly whether the controller advertises. */
  ghost predicate Coherent(s: State) {
    && (s.radio.running <==> s.radio.controller != Off)
    && (s.work.canceling ==> s.work.handlerAsleep)
  }

  lemma CoherentStep(s: State, l: Label)
    requires Coherent(s) && Enabled(s, l)
    ensures Coherent(Next(s, l))
  {
  }

  lemma {:induction false} CoherentRun(s: State, ls: seq<Label>)
    requires Coherent(s) && IsRun(s, ls)
    ensures Coherent(After(s, ls))
    decreases ls
  {
    if ls != [] {
      CoherentStep(s, ls[0]);
      CoherentRun(Next(s, ls[0]), ls[1..]);
    }
  }

  /**
   * In every reachable state the flag agrees with the controller; so when adv_work gets as far as
   * bt_le_adv_start the controller is off, and the start fails only if the stack itself refuses.
   */
  lemma NeverDoubleStarted(bonds: seq<Addr>, ls: seq<Label>, startOk: bool)
    requires IsRun(Init(bonds), ls)
    ensures var s := After(Init(bonds), ls);
      && (s.radio.running <==> s.radio.controller != Off)
      && (Enabled(s, AdvWork(startOk)) && !s.radio.running ==>
            && s.radio.controller == Off
            && (Next(s, AdvWork(startOk)).radio.running <==> startOk)
            && (startOk ==> Next(s, AdvWork(startOk)).radio.controller == StartMode(s.radio)))
  {
    CoherentRun(Init(bonds), ls);
  }

  // ---- Wakeup advertising is time-bounded ------------------------------------------------------

  /** Which calls and failures the environment may produce. */
  datatype Policy = Policy(
    zeroWakeup: bool,         // a wakeup call with duration 0
    zeroPair: bool,           // a pairing call with duration 0
    tryStopFails: bool,       // bt_le_adv_stop fails inside try_advertising_start
    handlerStopFails: bool)   // bt_le_adv_stop fails inside the mode-switch handler

  predicate Permits(p: Policy, l: Label) {
    match l
    case TryBegin(tid, call, stopOk) =>
      && (call.seconds == 0 ==> if call.wakeup then p.zeroWakeup else p.zeroPair)
      && (!stopOk ==> p.tryStopFails)
    case HandlerBegin(stopOk) => !stopOk ==> p.handlerStopFails
    case _ => true
  }

  predicate PermitsAll(p: Policy, ls: seq<Label>) {
    forall i :: 0 <= i < |ls| ==> Permits(p, ls[i])
  }

  /** Something that ends wakeup mode is on its way. */
  ghost predicate SwitchComing(s: State) {
    || s.work.armed || s.work.switchQueued || s.work.handlerAsleep
    || exists tid :: tid in s.tries && s.tries[tid].seconds != 0
  }

  ghost predicate TimeBounded(s: State) {
    (s.radio.controller == Wakeup || (s.work.advPending && s.radio.wakeupMode)) ==> SwitchComing(s)
  }

  ghost predicate AlwaysTimeBounded(p: Policy) {
    forall bonds, ls :: IsRun(Init(bonds), ls) && PermitsAll(p, ls) ==> TimeBounded(After(Init(bonds), ls))
  }

  predicate SafePolicy(p: Policy) {
    !p.zeroWakeup && !p.handlerStopFails && !(p.zeroPair && p.tryStopFails)
  }

  ghost predicate WakeInv(s: State) {
    && Coherent(s)
    && (s.work.handlerAsleep ==> s.radio.controller == Off)   // the sleeping handler keeps adv_work off the queue
    && ((s.radio.controller == Wakeup || s.radio.wakeupMode) ==> SwitchComing(s))
  }

  lemma WakeInvStep(p: Policy, s: State, l: Label)
    requires SafePolicy(p) && Permits(p, l)
    requires WakeInv(s) && Enabled(s, l)
    ensures WakeInv(Next(s, l))
  {
    var t := Next(s, l);
    CoherentStep(s, l);
    match l
    case TryBegin(tid, call, stopOk) =>
      assert t.tries[tid] == call;
    case TryEnd(tid) =>
      assert forall x :: x in s.tries && x != tid ==> x in t.tries && t.tries[x] == s.tries[x];
    case _ =>
      assert l.ConnectedCb? || t.tries == s.tries;
  }

  lemma {:induction false} WakeInvRun(p: Policy, s: State, ls: seq<Label>)
    requires SafePolicy(p) && PermitsAll(p, ls)
    requires WakeInv(s) && IsRun(s, ls)
    ensures WakeInv(After(s, ls))
    decreases ls
  {
    if ls != [] {
      assert Permits(p, ls[0]);
      WakeInvStep(p, s, ls[0]);
      WakeInvRun(p, Next(s, ls[0]), ls[1..]);
    }
  }

  /** A wakeup call that runs without disturbance: wakeup advertising is on, call and work are done. */
  function WakeupRun(seconds: int): seq<Label> {
    [TryBegin(0, TryCall(true, seconds), true)] + [TryEnd(0)] + [AdvWork(true)]
  }

  lemma WakeupRunAfter(seconds: int)
    requires seconds >= 0
    ensures IsRun(Init([]), WakeupRun(seconds))
    ensures PermitsAll(Policy(seconds == 0, false, false, false), WakeupRun(seconds))
    ensures After(Init([]), WakeupRun(seconds)) ==
            State(Radio(true, true, None, Wakeup), Work(false, seconds > 0, false, false, false),
                  Host(Disconnected, [], {}), map[])
  {
    var l0, l1, l2 := TryBegin(0, TryCall(true, seconds), true), TryEnd(0), AdvWork(true);
    assert [] + [l0] == [l0];
    Extend(Init([]), [], l0);
    Extend(Init([]), [l0], l1);
    var s := After(Init([]), [l0] + [l1]);
    assert s.tries == map[];
    Extend(Init([]), [l0] + [l1], l2);
  }

  /** `start_wakeup 0` arms no timeout: wakeup advertising then goes on for ever. */
  lemma ZeroWakeupUnbounded(p: Policy)
    requires p.zeroWakeup
    ensures !AlwaysTimeBounded(p)
  {
    WakeupRunAfter(0);
    assert PermitsAll(p, WakeupRun(0));
    assert !TimeBounded(After(Init([]), WakeupRun(0)));
  }

  /** The handler fails to stop the controller and then believes the mode is over. */
  lemma FailedHandlerUnbounded(p: Policy)
    requires p.handlerStopFails
    ensures !AlwaysTimeBounded(p)
  {
    var ls := WakeupRun(5);
    WakeupRunAfter(5);
    Extend(Init([]), ls, Expire);
    Extend(Init([]), ls + [Expire], HandlerBegin(false));
    Extend(Init([]), ls + [Expire] + [HandlerBegin(false)], HandlerEnd);
    var all := ls + [Expire] + [HandlerBegin(false)] + [HandlerEnd];
    assert PermitsAll(p, all);
    assert !TimeBounded(After(Init([]), all));
  }

  /** `start_adv 0` cancels the timeout but fails to stop the wakeup session. */
  lemma FailedTryUnbounded(p: Policy)
    requires p.zeroPair && p.tryStopFails
    ensures !AlwaysTimeBounded(p)
  {
    var ls := WakeupRun(5);
    var l0, l1 := TryBegin(0, TryCall(false, 0), false), TryEnd(0);
    WakeupRunAfter(5);
    Extend(Init([]), ls, l0);
    Extend(Init([]), ls + [l0], l1);
    var all := ls + [l0] + [l1];
    assert PermitsAll(p, all);
    var s := After(Init([]), all);
    assert s.tries == map[];
    assert !TimeBounded(s);
  }

  /** Exactly which environments keep every wakeup session time-bounded, over every interleaving. */
  lemma WakeupBoundedExactly(p: Policy)
    ensures AlwaysTimeBounded(p) <==> SafePolicy(p)
  {
    if SafePolicy(p) {
      forall bonds, ls | IsRun(Init(bonds), ls) && PermitsAll(p, ls)
        ensures TimeBounded(After(Init(bonds), ls))
      {
        WakeInvRun(p, Init(bonds), ls);
      }
    } else if p.zeroWakeup {
      ZeroWakeupUnbounded(p);
    } else if p.handlerStopFails {
      FailedHandlerUnbounded(p);
    } else {
      FailedTryUnbounded(p);
    }
  }

  // ---- No stranded device ----------------------------------------------------------------------

  /** Nothing is under way that will call advertising_start or advertising_continue. */
  predicate Idle(s: State) {
    !s.work.armed && !s.work.switchQueued && !s.work.handlerAsleep && s.tries == map[]
  }

  /** Disconnected, silent, and nothing left that would change that. */
  predicate Stranded(s: State) {
    s.host.link.Disconnected? && Idle(s) && !s.work.advPending && !s.radio.running
  }

  /**
   * Exactly when a step strands a device that was not stranded: a start the stack refuses, a stop
   * from outside, or a connection that fails other than by timeout, with nothing else under way.
   */
  lemma StrandedExactly(s: State, l: Label)
    requires Coherent(s) && Enabled(s, l) && !Stranded(s)
    ensures Stranded(Next(s, l)) <==>
            && s.host.link.Disconnected? && Idle(s)
            && (match l
                case AdvWork(startOk) => !startOk && !s.radio.running
                case RpcStop(stopOk) => stopOk && !s.work.advPending
                case DeletePaired(_, stopOk) => stopOk && !s.work.advPending
                case ConnectedCb(_, err) => err.OtherError? && !s.work.advPending
                case _ => false)
  {
    var t := Next(s, l);
    match l
    case TryBegin(tid, _, _) => assert tid in t.tries;
    case TryEnd(tid) =>
    case AdvWork(_) =>
    case _ =>
  }

  /** The only kinds of step that can strand the device. */
  predicate MayStrand(l: Label) {
    match l
    case AdvWork(startOk) => !startOk
    case RpcStop(stopOk) => stopOk
    case DeletePaired(_, stopOk) => stopOk
    case ConnectedCb(_, err) => err.OtherError?
    case _ => false
  }

  predicate NoneStrands(ls: seq<Label>) {
    forall i :: 0 <= i < |ls| ==> !MayStrand(ls[i])
  }

  lemma {:induction false} NotStrandedRun(s: State, ls: seq<Label>)
    requires Coherent(s) && !Stranded(s) && IsRun(s, ls) && NoneStrands(ls)
    ensures !Stranded(After(s, ls)) && Coherent(After(s, ls))
    decreases ls
  {
    if ls != [] {
      assert !MayStrand(ls[0]);
      CoherentStep(s, ls[0]);
      StrandedExactly(s, ls[0]);
      NotStrandedRun(Next(s, ls[0]), ls[1..]);
    }
  }

  /** The callbacks that promise to restart advertising later. */
  predicate Rearms(l: Label) {
    (l.DisconnectedCb? && l.dst.Some?) || (l.ConnectedCb? && l.err.AdvTimeout?)
  }

  /** After a disconnect or a directed-advertising timeout the device is never stranded. */
  lemma NoStrandedDevice(bonds: seq<Addr>, before: seq<Label>, l: Label, ls: seq<Label>)
    requires IsRun(Init(bonds), before) && Enabled(After(Init(bonds), before), l) && Rearms(l)
    requires IsRun(Next(After(Init(bonds), before), l), ls) && NoneStrands(ls)
    ensures !Stranded(After(Next(After(Init(bonds), before), l), ls))
  {
    var s := After(Init(bonds), before);
    CoherentRun(Init(bonds), before);
    CoherentStep(s, l);
    NotStrandedRun(Next(s, l), ls);
  }

  // ---- Left alone, the scheduler settles -------------------------------------------------------

  /** Steps the kernel takes by itself: timeouts, work items and the second halves of calls. */
  predicate Internal(l: Label) {
    l.TryEnd? || l.AdvWork? || l.Expire? || l.HandlerBegin? || l.HandlerEnd?
  }

  predicate AllInternal(ls: seq<Label>) {
    forall i :: 0 <= i < |ls| ==> Internal(ls[i])
  }

  /** How many internal steps are left at most. */
  function Rank(s: State): nat {
    6 * |s.tries| + (if s.work.armed then 4 else 0) + (if s.work.switchQueued then 3 else 0)
    + (if s.work.handlerAsleep then 2 else 0) + (if s.work.advPending then 1 else 0)
  }

  ghost predicate Settled(s: State) {
    forall l :: Internal(l) ==> !Enabled(s, l)
  }

  lemma OneTryLess(tries: map<Tid, TryCall>, tid: Tid)
    requires tid in tries
    ensures |tries - {tid}| == |tries| - 1
  {
    assert (tries - {tid}).Keys == tries.Keys - {tid};
    assert |tries| == |tries.Keys| && |tries - {tid}| == |(tries - {tid}).Keys|;
  }

  lemma TryEndRank(s: State, tid: Tid)
    requires tid in s.tries
    ensures Rank(TrySecondHalf(s, tid)) < Rank(s)
  {
    OneTryLess(s.tries, tid);
    assert TrySecondHalf(s, tid).tries == s.tries - {tid};
  }

  lemma RankDecreases(s: State, l: Label)
    requires Internal(l) && Enabled(s, l)
    ensures Rank(Next(s, l)) < Rank(s)
    ensures Next(s, l).host == s.host
  {
    if l.TryEnd? {
      TryEndRank(s, l.tid);
    }
  }

  lemma {:induction false} InternalRun(s: State, ls: seq<Label>)
    requires IsRun(s, ls) && AllInternal(ls)
    ensures |ls| + Rank(After(s, ls)) <= Rank(s)
    ensures After(s, ls).host == s.host
    decreases ls
  {
    if ls != [] {
      assert Internal(ls[0]);
      RankDecreases(s, ls[0]);
      InternalRun(Next(s, ls[0]), ls[1..]);
    }
  }

  lemma SettledIsIdle(s: State)
    requires Coherent(s) && Settled(s)
    ensures Idle(s) && !s.work.advPending
  {
    assert !Enabled(s, HandlerEnd) && !Enabled(s, HandlerBegin(true));
    assert !Enabled(s, Expire) && !Enabled(s, AdvWork(true));
    forall tid | tid in s.tries ensures false {
      assert Enabled(s, TryEnd(tid));
    }
    assert s.tries == map[];
  }

  /**
   * From any reachable state, in whatever order the kernel takes its own steps, it takes at most
   * Rank of them, and when none is left wakeup advertising is over.
   */
  lemma WakeupEnds(p: Policy, bonds: seq<Addr>, before: seq<Label>, ls: seq<Label>)
    requires SafePolicy(p) && PermitsAll(p, before) && PermitsAll(p, ls)
    requires IsRun(Init(bonds), before) && IsRun(After(Init(bonds), before), ls) && AllInternal(ls)
    ensures |ls| <= Rank(After(Init(bonds), before))
    ensures var t := After(After(Init(bonds), before), ls);
            Settled(t) ==> t.radio.controller != Wakeup && !t.radio.wakeupMode
  {
    var s := After(Init(bonds), before);
    WakeInvRun(p, Init(bonds), before);
    WakeInvRun(p, s, ls);
    InternalRun(s, ls);
    if Settled(After(s, ls)) {
      SettledIsIdle(After(s, ls));
    }
  }

  /**
   * And after a disconnect or a directed-advertising timeout it settles with connectable
   * advertising on, provided the stack accepts every start.
   */
  lemma SettlesConnectable(p: Policy, bonds: seq<Addr>, before: seq<Label>, l: Label, ls: seq<Label>)
    requires SafePolicy(p) && PermitsAll(p, before) && PermitsAll(p, ls)
    requires IsRun(Init(bonds), before) && Enabled(After(Init(bonds), before), l) && Rearms(l)
    requires IsRun(Next(After(Init(bonds), before), l), ls) && AllInternal(ls) && NoneStrands(ls)
    ensures var s, t := Next(After(Init(bonds), before), l), After(Next(After(Init(bonds), before), l), ls);
      && |ls| <= Rank(s)
      && (Settled(t) && s.host.link.Disconnected? ==> t.radio.controller.Pair? || t.radio.controller.Directed?)
  {
    var s0 := After(Init(bonds), before);
    var s := Next(s0, l);
    NoStrandedDevice(bonds, before, l, ls);
    WakeInvRun(p, Init(bonds), before);
    WakeInvStep(p, s0, l);
    WakeInvRun(p, s, ls);
    InternalRun(s, ls);
    if Settled(After(s, ls)) {
      SettledIsIdle(After(s, ls));
    }
  }

  // ---- Forgotten peers -------------------------------------------------------------------------

  /** No trace of peer a: not advertised to, not remembered, not bonded. */
  predicate Forgotten(s: State, a: Addr) {
    s.radio.controller != Directed(a) && s.radio.lastPaired != Some(a) && a !in s.host.bonds
  }

  /** A connected callback, other than a timeout, that names peer a. */
  predicate Meets(l: Label, a: Addr) {
    l.ConnectedCb? && l.dst == Some(a) && !l.err.AdvTimeout?
  }

  predicate NeverMeets(ls: seq<Label>, a: Addr) {
    forall i :: 0 <= i < |ls| ==> !Meets(ls[i], a)
  }

  ghost predicate ForgottenForever(s: State, a: Addr) {
    forall ls :: IsRun(s, ls) && NeverMeets(ls, a) ==> Forgotten(After(s, ls), a)
  }

  lemma {:induction false} WithoutIsGone(bonds: seq<Addr>, a: Addr)
    ensures forall x :: x in Without(bonds, a) <==> x in bonds && x != a
  {
    if bonds != [] {
      WithoutIsGone(bonds[1..], a);
      assert bonds == [bonds[0]] + bonds[1..];
    }
  }

  lemma ForgottenStep(s: State, l: Label, a: Addr)
    requires Forgotten(s, a) && a !in s.host.links && Enabled(s, l) && !Meets(l, a)
    ensures Forgotten(Next(s, l), a) && a !in Next(s, l).host.links
  {
    match l
    case DeletePaired(_, _) =>
      if s.radio.lastPaired.Some? {
        WithoutIsGone(s.host.bonds, s.radio.lastPaired.value);
      }
    case _ =>
  }

  lemma {:induction false} ForgottenRun(s: State, ls: seq<Label>, a: Addr)
    requires Forgotten(s, a) && a !in s.host.links && IsRun(s, ls) && NeverMeets(ls, a)
    ensures Forgotten(After(s, ls), a)
    decreases ls
  {
    if ls != [] {
      assert !Meets(ls[0], a);
      ForgottenStep(s, ls[0], a);
      ForgottenRun(Next(s, ls[0]), ls[1..], a);
    }
  }

  /**
   * delete_paired forgets the last paired peer for good, until it connects again, exactly when the
   * bond and the link are gone and the controller was not left advertising to it. The command
   * itself ignores both results.
   */
  lemma ForgottenExactly(bonds: seq<Addr>, before: seq<Label>, unpairOk: bool, stopOk: bool, a: Addr)
    requires IsRun(Init(bonds), before) && After(Init(bonds), before).radio.lastPaired == Some(a)
    ensures var s := After(Init(bonds), before);
      ForgottenForever(Next(s, DeletePaired(unpairOk, stopOk)), a) <==>
        && (unpairOk || (a !in s.host.bonds && a !in s.host.links))
        && (stopOk || s.radio.controller != Directed(a))
  {
    var s := After(Init(bonds), before);
    var t := Next(s, DeletePaired(unpairOk, stopOk));
    CoherentRun(Init(bonds), before);
    WithoutIsGone(s.host.bonds, a);
    var gone := unpairOk || (a !in s.host.bonds && a !in s.host.links);
    var quiet := stopOk || s.radio.controller != Directed(a);
    if gone && quiet {
      forall ls | IsRun(t, ls) && NeverMeets(ls, a) ensures Forgotten(After(t, ls), a) {
        ForgottenRun(t, ls, a);
      }
    } else if a in t.host.bonds || !quiet {
      assert IsRun(t, []) && NeverMeets([], a) && !Forgotten(After(t, []), a);
    } else {
      var l := BondsChange([a]);
      assert [] + [l] == [l];
      Extend(t, [], l);
      assert NeverMeets([l], a) && !Forgotten(After(t, [l]), a);
    }
  }

  /** Peer 0 pairs and is bonded. */
  function PairingRun(): seq<Label> {
    [TryBegin(0, TryCall(false, 5), true)] + [TryEnd(0)] + [AdvWork(true)] + [ConnectedCb(Some(0), NoError)]
    + [BondsChange([0])]
  }

  lemma PairingRunAfter()
    ensures IsRun(Init([]), PairingRun())
    ensures var s := After(Init([]), PairingRun());
      && s.radio == Radio(false, false, Some(0), Off) && s.host.bonds == [0]
      && !s.work.handlerAsleep && !s.work.canceling
  {
    var l0, l1, l2 := TryBegin(0, TryCall(false, 5), true), TryEnd(0), AdvWork(true);
    var l3, l4 := ConnectedCb(Some(0), NoError), BondsChange([0]);
    assert [] + [l0] == [l0];
    Extend(Init([]), [], l0);
    Extend(Init([]), [l0], l1);
    Extend(Init([]), [l0] + [l1], l2);
    Extend(Init([]), [l0] + [l1] + [l2], l3);
    Extend(Init([]), [l0] + [l1] + [l2] + [l3], l4);
  }

  /** A peer pairs; then bt_unpair fails, delete_paired reports nothing, and the bond is still there. */
  lemma NotForgotten(stopOk: bool)
    ensures IsRun(Init([]), PairingRun())
    ensures var t := Next(After(Init([]), PairingRun()), DeletePaired(false, stopOk));
      0 in t.host.bonds && !ForgottenForever(t, 0)
  {
    PairingRunAfter();
    ForgottenExactly([], PairingRun(), false, stopOk, 0);
  }

  /** The peer disconnects, and after the timeout the device advertises to it. */
  lemma Returns(s: State) returns (ls: seq<Label>)
    requires s.radio == Radio(false, false, Some(0), Off) && !s.work.handlerAsleep && !s.work.canceling
    requires s.host.bonds == [0]
    ensures IsRun(s, ls)
    ensures After(s, ls).radio.lastPaired == Some(0) && After(s, ls).radio.controller == Directed(0)
  {
    var l0, l1, l2, l3, l4 := DisconnectedCb(Some(0)), Expire, HandlerBegin(true), HandlerEnd, AdvWork(true);
    assert [] + [l0] == [l0];
    Extend(s, [], l0);
    Extend(s, [l0], l1);
    Extend(s, [l0] + [l1], l2);
    Extend(s, [l0] + [l1] + [l2], l3);
    Extend(s, [l0] + [l1] + [l2] + [l3], l4);
    ls := [l0] + [l1] + [l2] + [l3] + [l4];
  }

  lemma PairsAndReturns() returns (ls: seq<Label>)
    ensures IsRun(Init([]), ls)
    ensures After(Init([]), ls).radio.lastPaired == Some(0) && After(Init([]), ls).radio.controller == Directed(0)
  {
    PairingRunAfter();
    var more := Returns(After(Init([]), PairingRun()));
    RunConcat(Init([]), PairingRun(), more);
    ls := PairingRun() + more;
  }

  /** There the stop fails, and the device goes on advertising to the deleted peer. */
  lemma StillAdvertised(unpairOk: bool) returns (before: seq<Label>)
    ensures IsRun(Init([]), before) && After(Init([]), before).radio.lastPaired == Some(0)
    ensures var t := Next(After(Init([]), before), DeletePaired(unpairOk, false));
      t.radio.controller == Directed(0) && !ForgottenForever(t, 0)
  {
    before := PairsAndReturns();
    ForgottenExactly([], before, unpairOk, false, 0);
  }
}

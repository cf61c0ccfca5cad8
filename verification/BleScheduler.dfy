/**
 * The advertising scheduler of the remote control as a transition system.
 *
 * Shell commands, RPC calls, Bluetooth callbacks and the two work items of the system work queue
 * all change the same globals. Every stretch of code between two sleeps is one step; a call of
 * try_advertising_start and the mode-switch handler sleep in the middle and so are two steps each.
 */
module BleScheduler {
  import opened Options

  type Addr = nat
  type Tid = nat   // a shell, RPC or test thread

  datatype Link = Disconnected | Connected | SecurityOk

  /** What the controller is advertising. Pair and Directed are connectable, Wakeup is not. */
  datatype Controller = Off | Pair | Directed(peer: Addr) | Wakeup

  /** The arguments of a call of try_advertising_start. */
  datatype TryCall = TryCall(wakeup: bool, seconds: int)

  datatype ConnErr = NoError | AdvTimeout | OtherError

  datatype Radio = Radio(
    running: bool,              // is_adv_running
    wakeupMode: bool,           // g_wakeup_adv_mode
    lastPaired: Option<Addr>,   // g_rc_last_paired_addr
    controller: Controller)

  /** adv_work and the delayable adv_mode_switch_work, which share the system work queue. */
  datatype Work = Work(
    advPending: bool,           // adv_work is queued
    armed: bool,                // the timeout of adv_mode_switch_work is running
    switchQueued: bool,         // adv_mode_switch_work is queued
    handlerAsleep: bool,        // its handler is in k_sleep and holds the work queue
    canceling: bool)            // it was cancelled while its handler ran

  datatype Host = Host(
    link: Link,                 // g_btrc_st
    bonds: seq<Addr>,           // in the order bt_foreach_bond visits them
    links: set<Addr>)           // peers with a live link, over which a bond may be stored

  /** `tries` are the threads asleep inside try_advertising_start. */
  datatype State = State(radio: Radio, work: Work, host: Host, tries: map<Tid, TryCall>)

  function Init(bonds: seq<Addr>): State {
    State(Radio(false, false, None, Off),
          Work(false, false, false, false, false),
          Host(Disconnected, bonds, {}),
          map[])
  }

  // ---- The kernel ------------------------------------------------------------------------------

  /** k_work_cancel_delayable on adv_mode_switch_work. */
  function Cancel(w: Work): Work {
    w.(armed := false, switchQueued := false, canceling := w.canceling || w.handlerAsleep)
  }

  /**
   * k_work_reschedule on adv_mode_switch_work. A delay that is not positive means no wait: the item
   * goes straight to the queue, unless a cancellation of the running handler is still pending.
   */
  function Reschedule(w: Work, seconds: int): Work {
    if seconds > 0 then w.(armed := true)
    else w.(armed := false, switchQueued := w.switchQueued || !w.canceling)
  }

  // ---- The functions of ble_rc.c ---------------------------------------------------------------

  /** The address left behind when bond_find has visited every bond. */
  function LastVisited(bonds: seq<Addr>): Option<Addr> {
    if bonds == [] then None else Some(bonds[|bonds| - 1])
  }

  function StartMode(r: Radio): Controller {
    if r.wakeupMode then Wakeup
    else match r.lastPaired
      case None => Pair
      case Some(a) => Directed(a)
  }

  /** bt_le_adv_start refuses to start a second advertiser. */
  function AdvertisingContinue(r: Radio, startOk: bool): Radio {
    if r.running then r
    else if !startOk || r.controller != Off then r
    else r.(controller := StartMode(r), running := true)
  }

  function AdvertisingStop(r: Radio, stopOk: bool): Radio {
    if !r.running || !stopOk then r else r.(controller := Off, running := false)
  }

  function AdvertisingStart(s: State): State {
    s.(radio := s.radio.(lastPaired := LastVisited(s.host.bonds)),
       work := if s.radio.running then s.work else s.work.(advPending := true))
  }

  function Without(bonds: seq<Addr>, a: Addr): seq<Addr> {
    if bonds == [] then []
    else if bonds[0] == a then Without(bonds[1..], a)
    else [bonds[0]] + Without(bonds[1..], a)
  }

  /** bt_unpair: drops the bond and takes the link down. */
  function Unpair(h: Host, a: Option<Addr>, unpairOk: bool): Host {
    if a.None? || !unpairOk then h
    else h.(bonds := Without(h.bonds, a.value), links := h.links - {a.value})
  }

  function TryFirstHalf(s: State, tid: Tid, call: TryCall, stopOk: bool): State {
    s.(radio := AdvertisingStop(s.radio.(wakeupMode := call.wakeup), stopOk),
       work := Cancel(s.work),
       tries := s.tries[tid := call])
  }

  function TrySecondHalf(s: State, tid: Tid): State
    requires tid in s.tries
  {
    var seconds := s.tries[tid].seconds;
    var t := AdvertisingStart(s.(tries := s.tries - {tid}));
    t.(work := if seconds != 0 then Reschedule(t.work, seconds) else t.work)
  }

  function HandlerFirstHalf(s: State, stopOk: bool): State {
    s.(radio := AdvertisingStop(s.radio, stopOk),
       work := s.work.(switchQueued := false, handlerAsleep := true))
  }

  function HandlerSecondHalf(s: State): State {
    var t := s.(radio := s.radio.(wakeupMode := false),
                work := s.work.(handlerAsleep := false, canceling := false));
    if t.host.link.Disconnected? then AdvertisingStart(t) else t
  }

  /** connected(): the connectable session has ended with this callback. */
  function OnConnected(s: State, dst: Option<Addr>, err: ConnErr): State {
    State(s.radio.(controller := Off, running := false, lastPaired := if dst.Some? then dst else s.radio.lastPaired),
          if err.AdvTimeout? then Reschedule(s.work, 2) else s.work,
          if err.NoError? then
            s.host.(link := Connected, links := s.host.links + (if dst.Some? then {dst.value} else {}))
          else s.host,
          s.tries)
  }

  function OnDisconnected(s: State, dst: Option<Addr>): State {
    match dst
    case None => s
    case Some(a) =>
      s.(work := Reschedule(s.work, 2), host := s.host.(link := Disconnected, links := s.host.links - {a}))
  }

  function DeletePairedAddr(s: State, unpairOk: bool, stopOk: bool): State {
    s.(radio := AdvertisingStop(s.radio, stopOk).(lastPaired := None),
       host := Unpair(s.host, s.radio.lastPaired, unpairOk))
  }

  // ---- Steps -----------------------------------------------------------------------------------

  datatype Label =
    | TryBegin(tid: Tid, call: TryCall, stopOk: bool)   // try_advertising_start up to its sleep
    | TryEnd(tid: Tid)                                  // and from its sleep on
    | AdvWork(startOk: bool)                  // the work queue runs adv_work
    | Expire                                  // the timeout puts adv_mode_switch_work on the queue
    | HandlerBegin(stopOk: bool)              // adv_mode_switch_handler up to its sleep
    | HandlerEnd                              // and from its sleep on
    | ConnectedCb(dst: Option<Addr>, err: ConnErr)
    | DisconnectedCb(dst: Option<Addr>)
    | SecurityCb(ok: bool)
    | BondsChange(bonds: seq<Addr>)           // the host stores or evicts bonds
    | DeletePaired(unpairOk: bool, stopOk: bool)
    | RpcStop(stopOk: bool)                   // advertising_stop called by the RPC handler

  predicate Enabled(s: State, l: Label) {
    match l
    case TryBegin(tid, _, _) => tid !in s.tries
    case TryEnd(tid) => tid in s.tries
    case AdvWork(_) => s.work.advPending && !s.work.handlerAsleep
    // Every delay outlasts the handler's 100 ms, so no timeout fires into a pending cancellation.
    case Expire => s.work.armed && !s.work.canceling
    case HandlerBegin(_) => s.work.switchQueued && !s.work.handlerAsleep
    case HandlerEnd => s.work.handlerAsleep
    case ConnectedCb(dst, err) =>
      && (s.radio.controller.Pair? || s.radio.controller.Directed?)
      && (err.AdvTimeout? ==> s.radio.controller.Directed? && dst == Some(s.radio.controller.peer))
    case BondsChange(bonds) => forall a :: a in bonds ==> a in s.host.bonds || a in s.host.links
    case _ => true
  }

  function Next(s: State, l: Label): State
    requires Enabled(s, l)
  {
    match l
    case TryBegin(tid, call, stopOk) => TryFirstHalf(s, tid, call, stopOk)
    case TryEnd(tid) => TrySecondHalf(s, tid)
    case AdvWork(startOk) =>
      s.(work := s.work.(advPending := false), radio := AdvertisingContinue(s.radio, startOk))
    case Expire => s.(work := s.work.(armed := false, switchQueued := true))
    case HandlerBegin(stopOk) => HandlerFirstHalf(s, stopOk)
    case HandlerEnd => HandlerSecondHalf(s)
    case ConnectedCb(dst, err) => OnConnected(s, dst, err)
    case DisconnectedCb(dst) => OnDisconnected(s, dst)
    case SecurityCb(ok) => if ok then s.(host := s.host.(link := SecurityOk)) else s
    case BondsChange(bonds) => s.(host := s.host.(bonds := bonds))
    case DeletePaired(unpairOk, stopOk) => DeletePairedAddr(s, unpairOk, stopOk)
    case RpcStop(stopOk) => s.(radio := AdvertisingStop(s.radio, stopOk))
  }

  // ---- Runs ------------------------------------------------------------------------------------

  predicate IsRun(s: State, ls: seq<Label>)
    decreases ls
  {
    ls == [] || (Enabled(s, ls[0]) && IsRun(Next(s, ls[0]), ls[1..]))
  }

  function After(s: State, ls: seq<Label>): State
    requires IsRun(s, ls)
    decreases ls
  {
    if ls == [] then s else After(Next(s, ls[0]), ls[1..])
  }

  lemma {:induction false} RunConcat(s: State, xs: seq<Label>, ys: seq<Label>)
    requires IsRun(s, xs) && IsRun(After(s, xs), ys)
    ensures IsRun(s, xs + ys) && After(s, xs + ys) == After(After(s, xs), ys)
    decreases xs
  {
    if xs == [] {
      assert xs + ys == ys;
    } else {
      RunConcat(Next(s, xs[0]), xs[1..], ys);
      assert (xs + ys)[1..] == xs[1..] + ys;
    }
  }

  /** One more step at the end of a run. */
  lemma Extend(s: State, ls: seq<Label>, l: Label)
    requires IsRun(s, ls) && Enabled(After(s, ls), l)
    ensures IsRun(s, ls + [l]) && After(s, ls + [l]) == Next(After(s, ls), l)
  {
    var t := After(s, ls);
    assert IsRun(Next(t, l), []) && IsRun(t, [l]);
    RunConcat(s, ls, [l]);
  }

  /** The last step of a run, taken off it. */
  lemma {:induction false} Shorten(s: State, ls: seq<Label>, l: Label)
    requires IsRun(s, ls + [l])
    ensures IsRun(s, ls) && Enabled(After(s, ls), l)
    ensures After(s, ls + [l]) == Next(After(s, ls), l)
    decreases ls
  {
    if ls == [] {
      assert ls + [l] == [l];
    } else {
      assert (ls + [l])[1..] == ls[1..] + [l];
      Shorten(Next(s, ls[0]), ls[1..], l);
    }
  }
}

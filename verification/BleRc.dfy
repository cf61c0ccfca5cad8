/** The code of the advertising scheduler, segment by segment, proved against BleScheduler. */
module BleRc {
  import opened Options
  import S = BleScheduler

  class RemoteControl {
    // The program's globals
    var isAdvRunning: bool
    var wakeupAdvMode: bool
    var btrcSt: S.Link
    var lastPairedAddr: Option<S.Addr>

    // The Bluetooth host and controller
    var controller: S.Controller
    var bonds: seq<S.Addr>
    var links: set<S.Addr>

    // The kernel's view of the two work items and of the sleeping callers
    var work: S.Work
    var sleepers: map<S.Tid, S.TryCall>

    function View(): S.State
      reads this
    {
      S.State(S.Radio(isAdvRunning, wakeupAdvMode, lastPairedAddr, controller), work,
              S.Host(btrcSt, bonds, links), sleepers)
    }

    constructor (bonds: seq<S.Addr>)
      ensures View() == S.Init(bonds)
    {
      isAdvRunning, wakeupAdvMode, btrcSt, lastPairedAddr := false, false, S.Disconnected, None;
      controller, this.bonds, links := S.Off, bonds, {};
      work := S.Work(false, false, false, false, false);
      sleepers := map[];
    }

    // ---- Zephyr ----

    method KWorkSubmitAdvWork()
      modifies this`work
      ensures work == old(work).(advPending := true)
    {
      work := work.(advPending := true);
    }

    method KWorkCancelDelayable()
      modifies this`work
      ensures work == S.Cancel(old(work))
    {
      work := work.(armed := false, switchQueued := false);
      if work.handlerAsleep {
        work := work.(canceling := true);
      }
    }

    method KWorkReschedule(seconds: int)
      modifies this`work
      ensures work == S.Reschedule(old(work), seconds)
    {
      work := work.(armed := false);
      if seconds > 0 {
        work := work.(armed := true);
      } else if !work.canceling {
        work := work.(switchQueued := true);
      }
    }

    method BtLeAdvStart(mode: S.Controller, stackOk: bool) returns (err: int)
      requires mode != S.Off
      modifies this`controller
      ensures err == 0 <==> stackOk && old(controller) == S.Off
      ensures controller == if err == 0 then mode else old(controller)
    {
      if controller != S.Off {
        return -120;
      }
      if !stackOk {
        return -5;
      }
      controller := mode;
      return 0;
    }

    method BtLeAdvStop(stackOk: bool) returns (err: int)
      modifies this`controller
      ensures err == 0 <==> stackOk
      ensures controller == if err == 0 then S.Off else old(controller)
    {
      if !stackOk {
        return -5;
      }
      controller := S.Off;
      return 0;
    }

    method BtUnpair(a: Option<S.Addr>, stackOk: bool)
      modifies this`bonds, this`links
      ensures S.Host(btrcSt, bonds, links) == S.Unpair(old(S.Host(btrcSt, bonds, links)), a, stackOk)
    {
      if a.Some? && stackOk {
        bonds := S.Without(bonds, a.value);
        links := links - {a.value};
      }
    }

    // ---- ble_rc.c ----

    method BondFind(addr: S.Addr)
      modifies this`lastPairedAddr
      ensures lastPairedAddr == Some(addr)
    {
      lastPairedAddr := Some(addr);
    }

    method AdvertisingContinue(stackOk: bool)
      modifies this
      ensures View() == old(View()).(radio := S.AdvertisingContinue(old(View()).radio, stackOk))
    {
      if isAdvRunning {
        return;
      }
      var err: int;
      if !wakeupAdvMode {
        if lastPairedAddr.None? {
          err := BtLeAdvStart(S.Pair, stackOk);
        } else {
          err := BtLeAdvStart(S.Directed(lastPairedAddr.value), stackOk);
        }
      } else {
        err := BtLeAdvStart(S.Wakeup, stackOk);
      }
      if err != 0 {
        return;
      }
      isAdvRunning := true;
    }

    method AdvertisingStart()
      modifies this
      ensures View() == S.AdvertisingStart(old(View()))
    {
      lastPairedAddr := None;
      var i := 0;
      while i < |bonds|
        invariant 0 <= i <= |bonds|
        invariant lastPairedAddr == S.LastVisited(bonds[..i])
        invariant View() == old(View()).(radio := old(View()).radio.(lastPaired := lastPairedAddr))
      {
        BondFind(bonds[i]);
        i := i + 1;
      }
      assert bonds[..i] == bonds;
      if isAdvRunning {
        return;
      }
      KWorkSubmitAdvWork();
    }

    method AdvertisingStop(stackOk: bool) returns (rc: int)
      modifies this
      ensures View() == old(View()).(radio := S.AdvertisingStop(old(View()).radio, stackOk))
      ensures rc == if old(isAdvRunning) && !stackOk then -1 else 0
    {
      if !isAdvRunning {
        return 0;
      }
      var err := BtLeAdvStop(stackOk);
      if err != 0 {
        return -1;
      }
      isAdvRunning := false;
      return 0;
    }

    method AdvertisingProcess(stackOk: bool)
      requires S.Enabled(View(), S.AdvWork(stackOk))
      modifies this
      ensures View() == S.Next(old(View()), S.AdvWork(stackOk))
    {
      work := work.(advPending := false);
      AdvertisingContinue(stackOk);
    }

    /** A connectable session ends and the host calls connected(). */
    method Connected(dst: Option<S.Addr>, err: S.ConnErr)
      requires S.Enabled(View(), S.ConnectedCb(dst, err))
      modifies this
      ensures View() == S.Next(old(View()), S.ConnectedCb(dst, err))
    {
      controller := S.Off;
      if err.NoError? && dst.Some? {
        links := links + {dst.value};
      }

      isAdvRunning := false;
      if dst.Some? {
        lastPairedAddr := dst;
      }
      if !err.NoError? {
        if err.AdvTimeout? {
          KWorkReschedule(2);
        }
        return;
      }
      btrcSt := S.Connected;
    }

    method Disconnected(dst: Option<S.Addr>)
      modifies this
      ensures View() == S.Next(old(View()), S.DisconnectedCb(dst))
    {
      if dst.None? {
        return;
      }
      links := links - {dst.value};

      btrcSt := S.Disconnected;
      KWorkReschedule(2);
    }

    method SecurityChanged(ok: bool)
      modifies this
      ensures View() == S.Next(old(View()), S.SecurityCb(ok))
    {
      if ok {
        btrcSt := S.SecurityOk;
      }
    }

    /** try_advertising_start up to its sleep. */
    method TryAdvertisingStartBegin(tid: S.Tid, isWakeup: bool, seconds: int, stackOk: bool)
      requires tid !in sleepers
      modifies this
      ensures View() == S.Next(old(View()), S.TryBegin(tid, S.TryCall(isWakeup, seconds), stackOk))
    {
      KWorkCancelDelayable();
      wakeupAdvMode := isWakeup;
      var _ := AdvertisingStop(stackOk);
      sleepers := sleepers[tid := S.TryCall(isWakeup, seconds)];
    }

    /** And from its sleep on. */
    method TryAdvertisingStartEnd(tid: S.Tid)
      requires tid in sleepers
      modifies this
      ensures View() == S.Next(old(View()), S.TryEnd(tid))
    {
      var seconds := sleepers[tid].seconds;
      sleepers := sleepers - {tid};
      AdvertisingStart();
      if seconds != 0 {
        KWorkReschedule(seconds);
      }
    }

    method CmdDeletePaired(unpairOk: bool, stackOk: bool)
      modifies this
      ensures View() == S.Next(old(View()), S.DeletePaired(unpairOk, stackOk))
    {
      BtUnpair(lastPairedAddr, unpairOk);
      var _ := AdvertisingStop(stackOk);
      lastPairedAddr := None;
    }

    /** adv_mode_switch_handler up to its sleep. */
    method AdvModeSwitchHandlerBegin(stackOk: bool)
      requires S.Enabled(View(), S.HandlerBegin(stackOk))
      modifies this
      ensures View() == S.Next(old(View()), S.HandlerBegin(stackOk))
    {
      work := work.(switchQueued := false, handlerAsleep := true);
      var _ := AdvertisingStop(stackOk);
    }

    /** And from its sleep on. */
    method AdvModeSwitchHandlerEnd()
      requires S.Enabled(View(), S.HandlerEnd)
      modifies this
      ensures View() == S.Next(old(View()), S.HandlerEnd)
    {
      wakeupAdvMode := false;
      work := work.(handlerAsleep := false, canceling := false);
      if btrcSt.Disconnected? {
        AdvertisingStart();
      }
    }
  }
}

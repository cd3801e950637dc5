/** The per-device state of nf10_user.c and its user-facing entry points:
    nf10_poll, nf10_user_callback, nf10_ioctl and nf10_mmap.  Each locked
    region is one atomic method; the wait queues are reduced to whether
    they have a waiter. */
module Device {
  import opened Base
  import opened UserFlags
  import Axi

  /** Page size of the target (x86-64); `x & ~PAGE_MASK` is `x % PAGE_SIZE`. */
  const PAGE_SIZE: nat := 4096

  /** The poll table the kernel passes to nf10_poll when it is not NULL:
      the requested events (its key) and whether poll_wait still queues
      the caller (its queueing procedure is set). */
  datatype PollTable = PollTable(key: set<PollEvent>, queueing: bool)

  /** The events nf10_poll considers: the table's key, or
      POLLIN|POLLOUT|POLLERR when no table is passed. */
  function Events(wait: Option<PollTable>): (events: set<PollEvent>)
    ensures wait.None? ==> Wants(events, Rx) && Wants(events, Tx)
  {
    if wait.Some? then wait.value.key
    else
      assert PollIn in {PollIn, PollOut, PollErr} * DirEvents(Rx);
      assert PollOut in {PollIn, PollOut, PollErr} * DirEvents(Tx);
      {PollIn, PollOut, PollErr}
  }

  /** Whether nf10_poll's poll_wait puts the caller on direction d's queue. */
  predicate Registers(wait: Option<PollTable>, d: Dir)
  {
    wait.Some? && wait.value.queueing && Wants(wait.value.key, d)
  }

  /** The hooks of adapter->user_ops; a missing hook is None.  The
      prepare_rx_buffer hook has no result, so only its presence is kept. */
  datatype UserOps = UserOps(
    init: Option<bv64 -> bv64>,
    exit: Option<bv64 -> bv64>,
    prepareRxBuffer: bool,
    startXmit: Option<bv64 -> int>,
    getPfn: Option<(nat, nat) -> nat>)   // (size, nr_user_mmap) to a pfn, 0 on failure

  /** The user memory an ioctl argument points at: the 8 bytes
      copy_from_user reads there (None when it faults), and whether
      copy_to_user there succeeds. */
  datatype UserMem = UserMem(word: Option<bv64>, writable: bool)

  /** The ioctl commands; Unknown stands for every other number. */
  datatype Cmd = ReadStat | WriteReg | ReadReg | Init | Exit | PrepareRx | Xmit | Unknown

  /** What an ioctl returns and what it copies to user memory at arg. */
  datatype Reply = Reply(ret: int, copied: Option<bv64>)

  /** WRITE_REG after the transaction: check_axi's result passes through a
      u32 local, so a NACK returns 2^32 - EFAULT as a long, which is
      -EFAULT once truncated to int. */
  function WriteRegReply(hw: nat -> bv64): (r: Reply)
    ensures r.copied == None
    ensures r.ret == 0 <==> Axi.Spin(hw).status != Axi.NACK
    ensures Axi.Spin(hw).status == Axi.NACK ==> r.ret == TWO_32 - EFAULT
    ensures AsInt32(r.ret) == (if Axi.Spin(hw).status == Axi.NACK then -EFAULT else 0)
  {
    ErrnoThroughU32(EFAULT);
    Reply(AsU32(Axi.CheckAxi(Axi.Spin(hw).status)), None)
  }

  /** READ_REG: read the address from user memory, run the transaction,
      and copy back the datum tagged with the address. */
  function ReadRegOutcome(user: UserMem, hw: nat -> bv64): (r: Reply)
    ensures user.word.None? ==> r == Reply(-EFAULT, None)
    ensures user.word.Some? && Axi.Spin(hw).status == Axi.NACK ==>
      r.copied == None && r.ret == TWO_32 - EFAULT && AsInt32(r.ret) == -EFAULT
    // a failed copy back returns a plain -EFAULT
    ensures user.word.Some? && Axi.Spin(hw).status != Axi.NACK && !user.writable ==>
      r == Reply(-EFAULT, None)
    ensures r.copied.Some? <==> user.word.Some? && Axi.Spin(hw).status != Axi.NACK && user.writable
    ensures r.copied.None? ==> AsInt32(r.ret) == -EFAULT
    ensures r.copied.Some? ==>
      r.ret == 0 &&
      Axi.Data(r.copied.value) == Axi.Data(hw(Axi.Spin(hw).polls)) &&
      Axi.Stat(r.copied.value) == Axi.Low32(user.word.value)
  {
    ErrnoThroughU32(EFAULT);
    if user.word.None? then Reply(-EFAULT, None)
    else
      var status := Axi.Spin(hw).status;
      if status == Axi.NACK then Reply(AsU32(Axi.CheckAxi(status)), None)
      else if !user.writable then Reply(-EFAULT, None)
      else Reply(0, Some(Axi.ReadRegReply(user.word.value, Axi.Data(hw(Axi.Spin(hw).polls)))))
  }

  class Adapter {
    var userFlags: set<Flag>      // adapter->user_flags
    var nrUserMmap: nat           // adapter->nr_user_mmap
    ghost var irqEnabled: bool    // the data-path interrupt is unmasked
    var rxWaiting: bool           // waitqueue_active(&adapter->user_rx_wq)
    var txWaiting: bool           // waitqueue_active(&adapter->user_tx_wq)

    ghost predicate Valid()
      reads this
    {
      Inv(Shared(userFlags, irqEnabled))
    }

    /** The state after probe: no session, interrupt enabled, no waiter. */
    constructor ()
      ensures Valid()
      ensures userFlags == {} && nrUserMmap == 0 && irqEnabled
      ensures !rxWaiting && !txWaiting
    {
      userFlags := {};
      nrUserMmap := 0;
      irqEnabled := true;
      rxWaiting := false;
      txWaiting := false;
    }

    /** nf10_poll: consume and report the requested pending directions;
      with nothing ready and IRQ_DISABLED set, re-enable the interrupt
      before the caller sleeps. */
    method Poll(wait: Option<PollTable>) returns (mask: set<PollEvent>)
      requires Valid()
      modifies this
      ensures Valid()
      ensures var r := PollStep(old(userFlags), Events(wait));
        mask == r.mask && userFlags == r.flags && irqEnabled == (old(irqEnabled) || r.enableIrq)
      ensures mask == {} ==> irqEnabled && IrqDisabled !in userFlags
      ensures rxWaiting == (old(rxWaiting) || Registers(wait, Rx))
      ensures txWaiting == (old(txWaiting) || Registers(wait, Tx))
      ensures nrUserMmap == old(nrUserMmap)
    {
      var events := Events(wait);
      mask := {};
      if Wants(events, Rx) {
        if wait.Some? && wait.value.queueing {
          rxWaiting := true;
        }
        if RxPending in userFlags {
          userFlags := userFlags - {RxPending};
          mask := mask + {PollIn, PollRdNorm};
        }
      }
      if Wants(events, Tx) {
        if wait.Some? && wait.value.queueing {
          txWaiting := true;
        }
        if TxPending in userFlags {
          userFlags := userFlags - {TxPending};
          mask := mask + {PollOut, PollWrNorm};
        }
      }
      if mask == {} && IrqDisabled in userFlags {
        if Wants(events, Tx) {
          userFlags := userFlags + {GcAddrSync};
        }
        userFlags := userFlags - {IrqDisabled};
        irqEnabled := true;
      }
      ghost var r := PollStep(old(userFlags), events);
      assert userFlags == r.flags;
      StepKeepsInv(old(Shared(userFlags, irqEnabled)), Wait(events));
    }

    /** nf10_user_callback: called from the NAPI loop when rx (rx true)
      or tx work arrives.  Returns whether the session enabled that
      direction; if so marks it pending and, unless the other queue has a
      waiter, asks the caller to leave the interrupt masked. */
    method UserCallback(rx: bool) returns (relevant: bool)
      requires Valid()
      modifies this
      ensures Valid()
      ensures var r := CallbackStep(old(userFlags), if rx then Rx else Tx, if rx then txWaiting else rxWaiting);
        relevant == r.relevant && userFlags == r.flags
      ensures irqEnabled == old(irqEnabled) && nrUserMmap == old(nrUserMmap)
      ensures rxWaiting == old(rxWaiting) && txWaiting == old(txWaiting)
    {
      if (rx && RxOn !in userFlags) || (!rx && TxOn !in userFlags) {
        return false;
      }
      var pending := if rx then RxPending else TxPending;
      var otherActive := if rx then txWaiting else rxWaiting;
      userFlags := userFlags + {pending};
      if !otherActive {
        userFlags := userFlags + {IrqDisabled};
      }
      // wake_up_interruptible_poll leaves the waiters registered: each
      // leaves its queue when its own poll call ends
      relevant := true;
      StepKeepsInv(old(Shared(userFlags, irqEnabled)), Notify(if rx then Rx else Tx, otherActive));
    }

    /** The end of a poll or select call: the kernel's poll core takes the
      caller off every queue poll_wait put it on.  Only one session
      process is modelled, so both queues empty. */
    method PollDone()
      modifies this
      ensures !rxWaiting && !txWaiting
      ensures userFlags == old(userFlags) && nrUserMmap == old(nrUserMmap) && irqEnabled == old(irqEnabled)
    {
      rxWaiting := false;
      txWaiting := false;
    }

    /** nf10_ioctl.  `ret` is the long the function returns; `copied` is
      the 8-byte value it writes to user memory at arg, if any. */
    method Ioctl(cmd: Cmd, arg: bv64, ops: UserOps, user: UserMem, hw: nat -> bv64)
      returns (ret: int, copied: Option<bv64>)
      requires Valid()
      modifies this
      ensures Valid()
      ensures rxWaiting == old(rxWaiting) && txWaiting == old(txWaiting)
      ensures !cmd.Init? && !cmd.Exit? ==>
        userFlags == old(userFlags) && nrUserMmap == old(nrUserMmap) && irqEnabled == old(irqEnabled)
      ensures cmd == ReadStat ==> ret == 0 && copied == None
      ensures cmd == WriteReg ==> Reply(ret, copied) == WriteRegReply(hw)
      ensures cmd == ReadReg ==> Reply(ret, copied) == ReadRegOutcome(user, hw)
      // INIT: busy on any set bit of the flags word
      ensures cmd == Init && old(userFlags) != {} ==>
        ret == -EBUSY && copied == None && unchanged(this)
      ensures cmd == Init && old(userFlags) == {} ==>
        userFlags == SessionFlags(arg) && nrUserMmap == 0 && !irqEnabled &&
        if ops.init.None? then ret == 0 && copied == None
        else if user.writable then ret == 0 && copied == Some(ops.init.value(arg))
        else ret == -EFAULT && copied == None
      // EXIT: a failed copy of the hook's result returns before the reset
      ensures cmd == Exit && ops.exit.Some? && !user.writable ==>
        ret == -EFAULT && copied == None && unchanged(this)
      ensures cmd == Exit && (ops.exit.None? || user.writable) ==>
        ret == 0 && userFlags == EXIT_FLAGS && nrUserMmap == 0 && irqEnabled &&
        copied == (if ops.exit.Some? then Some(ops.exit.value(arg)) else None)
      ensures cmd == PrepareRx ==> copied == None && ret == (if ops.prepareRxBuffer then 0 else -ENOTSUPP)
      ensures cmd == Xmit ==>
        copied == None && ret == (if ops.startXmit.Some? then ops.startXmit.value(arg) else -ENOTSUPP)
      ensures cmd == Unknown ==> ret == -EINVAL && copied == None
    {
      ret, copied := 0, None;
      match cmd
      case ReadStat =>
      case WriteReg =>
        var status := Axi.WriteAxi(hw);
        var r := AsU32(Axi.CheckAxi(status));
        if r != 0 {
          return r, None;
        }
      case ReadReg =>
        if user.word.None? {
          return -EFAULT, None;
        }
        var addr := user.word.value;
        var status, val := Axi.ReadAxi(hw);
        var r := AsU32(Axi.CheckAxi(status));
        if r != 0 {
          return r, None;
        }
        val := Axi.ReadRegReply(addr, val);
        if !user.writable {
          return -EFAULT, None;
        }
        copied := Some(val);
      case Init =>
        if userFlags != {} {
          return -EBUSY, None;
        }
        nrUserMmap := 0;
        userFlags := userFlags + OnFlags(arg);
        userFlags := userFlags + {IrqDisabled};
        irqEnabled := false;
        if ops.init.Some? {
          var r := ops.init.value(arg);
          if !user.writable {
            return -EFAULT, None;
          }
          copied := Some(r);
        }
      case Exit =>
        if ops.exit.Some? {
          var r := ops.exit.value(arg);
          if !user.writable {
            return -EFAULT, None;
          }
          copied := Some(r);
        }
        nrUserMmap := 0;
        userFlags := EXIT_FLAGS;
        irqEnabled := true;
      case PrepareRx =>
        if !ops.prepareRxBuffer {
          return -ENOTSUPP, None;
        }
      case Xmit =>
        if ops.startXmit.None? {
          return -ENOTSUPP, None;
        }
        ret := ops.startXmit.value(arg);
      case Unknown =>
        return -EINVAL, None;
    }

    /** nf10_mmap: page-aligned bounds, a get_pfn hook and a nonzero pfn
      are required (else -EINVAL); the remap's result is returned and the
      mapping counter advances only when it is 0.  `remap` stands for
      remap_pfn_range, called with (start, pfn, size). */
    method Mmap(vmStart: nat, vmEnd: nat, ops: UserOps, remap: (nat, nat, nat) -> int) returns (err: int)
      requires Valid()
      requires vmStart <= vmEnd
      modifies this
      ensures Valid()
      ensures userFlags == old(userFlags) && irqEnabled == old(irqEnabled)
      ensures rxWaiting == old(rxWaiting) && txWaiting == old(txWaiting)
      ensures vmStart % PAGE_SIZE != 0 || vmEnd % PAGE_SIZE != 0 ==> err == -EINVAL
      ensures ops.getPfn.None? ==> err == -EINVAL
      ensures ops.getPfn.Some? && ops.getPfn.value(vmEnd - vmStart, old(nrUserMmap)) == 0 ==> err == -EINVAL
      ensures (vmStart % PAGE_SIZE == 0 && vmEnd % PAGE_SIZE == 0 && ops.getPfn.Some? &&
               ops.getPfn.value(vmEnd - vmStart, old(nrUserMmap)) != 0) ==>
        err == remap(vmStart, ops.getPfn.value(vmEnd - vmStart, old(nrUserMmap)), vmEnd - vmStart)
      ensures err == 0 <==> nrUserMmap == old(nrUserMmap) + 1
      ensures err != 0 ==> nrUserMmap == old(nrUserMmap)
    {
      if vmStart % PAGE_SIZE != 0 || vmEnd % PAGE_SIZE != 0 {
        return -EINVAL;
      }
      if ops.getPfn.None? {
        return -EINVAL;
      }
      var size := vmEnd - vmStart;
      var pfn := ops.getPfn.value(size, nrUserMmap);
      if pfn == 0 {
        return -EINVAL;
      }
      err := remap(vmStart, pfn, size);
      if err == 0 {
        nrUserMmap := nrUserMmap + 1;
      }
    }
  }
}

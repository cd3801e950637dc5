/** The user-session flags word of nf10_user.c and the steps that change
    it: the consumer (nf10_poll), the producer (nf10_user_callback), and
    the INIT and EXIT ioctls.  Each step is one critical section under
    user_lock, stated here as a function of the flags it finds. */
module UserFlags {

  /** The UF_* bits of adapter->user_flags. */
  datatype Flag = RxOn | TxOn | RxPending | TxPending | IrqDisabled | GcAddrSync

  /** UF_ON_MASK: the bits INIT copies from its argument. */
  const ON_MASK: set<Flag> := {RxOn, TxOn}

  /** The mask of each UF_* bit in a flags word.  nf10_user.h, which
      defines them, is not part of this model: the positions below are
      placeholders, and only their distinctness is relied on. */
  function Bit(f: Flag): bv64
  {
    match f
    case RxOn => 0x01
    case TxOn => 0x02
    case RxPending => 0x04
    case TxPending => 0x08
    case IrqDisabled => 0x10
    case GcAddrSync => 0x20
  }

  /** `arg & UF_ON_MASK`: the enable bits an ioctl argument carries. */
  function OnFlags(arg: bv64): (fs: set<Flag>)
    ensures fs <= ON_MASK
    ensures RxOn in fs <==> arg & Bit(RxOn) != 0
    ensures TxOn in fs <==> arg & Bit(TxOn) != 0
  {
    (if arg & Bit(RxOn) != 0 then {RxOn} else {}) + (if arg & Bit(TxOn) != 0 then {TxOn} else {})
  }

  /** The two data directions; rx is the `rx` argument of the callback. */
  datatype Dir = Rx | Tx

  function OnBit(d: Dir): Flag
  {
    if d == Rx then RxOn else TxOn
  }

  function PendingBit(d: Dir): Flag
  {
    if d == Rx then RxPending else TxPending
  }

  /** Poll event bits a caller may request and poll may report. */
  datatype PollEvent = PollIn | PollRdNorm | PollRdBand | PollOut | PollWrNorm | PollWrBand | PollErr

  /** The events that ask for, and report, one direction:
      POLLIN|POLLRDNORM for rx, POLLOUT|POLLWRNORM for tx. */
  function DirEvents(d: Dir): set<PollEvent>
  {
    if d == Rx then {PollIn, PollRdNorm} else {PollOut, PollWrNorm}
  }

  /** Whether a poll key requests direction d. */
  predicate Wants(events: set<PollEvent>, d: Dir)
  {
    events * DirEvents(d) != {}
  }

  /** A pending bit is only ever set for a direction the session enabled. */
  ghost predicate PendingNeedsOn(flags: set<Flag>)
  {
    (RxPending in flags ==> RxOn in flags) && (TxPending in flags ==> TxOn in flags)
  }

  // ---------------------------------------------------------------------
  // nf10_poll

  datatype PollResult = PollResult(flags: set<Flag>, mask: set<PollEvent>, enableIrq: bool)

  /** The directions a poll with key `events` finds ready. */
  function Ready(flags: set<Flag>, events: set<PollEvent>): set<Dir>
  {
    set d | d in {Rx, Tx} && Wants(events, d) && PendingBit(d) in flags
  }

  /** What a poll reports for direction d when `ready` is ready. */
  function Report(ready: set<Dir>, d: Dir): set<PollEvent>
  {
    if d in ready then DirEvents(d) else {}
  }

  /** The critical section of nf10_poll: consume the requested pending
      bits, report them, and when nothing is ready while the IRQ is
      marked disabled, re-enable it (asking for a gc address sync when tx
      was requested). */
  function PollStep(flags: set<Flag>, events: set<PollEvent>): (r: PollResult)
    // a requested, pending direction is consumed and reported
    ensures forall d :: Wants(events, d) && PendingBit(d) in flags ==>
      DirEvents(d) <= r.mask && PendingBit(d) !in r.flags
    // any other direction is neither reported nor touched
    ensures forall d :: !(Wants(events, d) && PendingBit(d) in flags) ==>
      r.mask * DirEvents(d) == {} && (PendingBit(d) in r.flags <==> PendingBit(d) in flags)
    ensures r.mask <= DirEvents(Rx) + DirEvents(Tx)
    // the IRQ is re-enabled exactly when the caller is about to sleep with it disabled
    ensures r.enableIrq <==> r.mask == {} && IrqDisabled in flags
    ensures r.enableIrq ==> IrqDisabled !in r.flags
    ensures r.enableIrq ==> (GcAddrSync in r.flags <==> GcAddrSync in flags || Wants(events, Tx))
    ensures !r.enableIrq ==> (IrqDisabled in r.flags <==> IrqDisabled in flags)
    ensures !r.enableIrq ==> (GcAddrSync in r.flags <==> GcAddrSync in flags)
    // an empty mask never leaves IRQ_DISABLED set
    ensures r.mask == {} ==> IrqDisabled !in r.flags
    ensures r.flags * ON_MASK == flags * ON_MASK
  {
    var ready := Ready(flags, events);
    var mask := Report(ready, Rx) + Report(ready, Tx);
    var consumed := flags - set d | d in ready :: PendingBit(d);
    var sleep := mask == {} && IrqDisabled in flags;
    var synced := if sleep && Wants(events, Tx) then consumed + {GcAddrSync} else consumed;
    PollResult(if sleep then synced - {IrqDisabled} else synced, mask, sleep)
  }

  // ---------------------------------------------------------------------
  // nf10_user_callback

  datatype CallbackResult = CallbackResult(flags: set<Flag>, relevant: bool)

  /** The part of the callback that runs under user_lock: mark d pending,
      and mark the IRQ disabled unless the other direction's queue has a
      waiter.  It does not look at the ON bits: the callback tests those
      before it takes the lock. */
  function MarkStep(flags: set<Flag>, d: Dir, otherWaiting: bool): (r: set<Flag>)
    ensures PendingBit(d) in r
    ensures IrqDisabled in r <==> IrqDisabled in flags || !otherWaiting
    ensures forall f :: f != PendingBit(d) && f != IrqDisabled ==> (f in r <==> f in flags)
  {
    var marked := flags + {PendingBit(d)};
    if otherWaiting then marked else marked + {IrqDisabled}
  }

  /** The producer, with its test of the ON bit and its locked update as
      one critical section: with direction d enabled, mark it pending, and
      mark the IRQ disabled unless the other direction's queue has a
      waiter. */
  function CallbackStep(flags: set<Flag>, d: Dir, otherWaiting: bool): (r: CallbackResult)
    ensures r.relevant <==> OnBit(d) in flags
    ensures !r.relevant ==> r.flags == flags
    ensures r.relevant ==> PendingBit(d) in r.flags
    ensures r.relevant ==> (IrqDisabled in r.flags <==> IrqDisabled in flags || !otherWaiting)
    ensures forall f :: f != PendingBit(d) && f != IrqDisabled ==> (f in r.flags <==> f in flags)
  {
    if OnBit(d) !in flags then CallbackResult(flags, false)
    else CallbackResult(MarkStep(flags, d, otherWaiting), true)
  }

  /** The throttle never strands a waiter: with a waiter on the other
      queue, the callback does not newly mark the IRQ disabled. */
  lemma CallbackSparesOtherWaiter(flags: set<Flag>, d: Dir)
    requires IrqDisabled !in flags
    ensures IrqDisabled !in CallbackStep(flags, d, true).flags
  {
  }

  // ---------------------------------------------------------------------
  // INIT and EXIT

  /** The flags INIT installs when the word was zero. */
  function SessionFlags(arg: bv64): (fs: set<Flag>)
    ensures IrqDisabled in fs
    ensures RxOn in fs <==> arg & Bit(RxOn) != 0
    ensures TxOn in fs <==> arg & Bit(TxOn) != 0
    ensures fs - ON_MASK == {IrqDisabled}
  {
    OnFlags(arg) + {IrqDisabled}
  }

  /** The flags EXIT leaves. */
  const EXIT_FLAGS: set<Flag> := {GcAddrSync}

  // ---------------------------------------------------------------------
  // The shared state as a whole, and runs of critical sections

  /** The flags word together with the hardware interrupt mask. */
  datatype Shared = Shared(flags: set<Flag>, irqEnabled: bool)

  /** The invariant the critical sections keep: pending implies enabled,
      and the IRQ is masked only while the flags say so. */
  ghost predicate Inv(s: Shared)
  {
    PendingNeedsOn(s.flags) && (!s.irqEnabled ==> IrqDisabled in s.flags)
  }

  /** One critical section of the user interface. */
  datatype Op =
    | Notify(d: Dir, otherWaiting: bool)   // nf10_user_callback
    | Wait(events: set<PollEvent>)         // nf10_poll
    | Start(arg: bv64)                     // INIT
    | Stop                                 // EXIT

  function Step(s: Shared, op: Op): (r: Shared)
    // callbacks and polls never change which directions are enabled
    ensures op.Notify? || op.Wait? ==> r.flags * ON_MASK == s.flags * ON_MASK
    // a callback leaves the interrupt mask to the NAPI loop
    ensures op.Notify? ==> r.irqEnabled == s.irqEnabled
    // a poll unmasks the interrupt when it finds nothing with IRQ_DISABLED set
    ensures op.Wait? ==>
      (r.irqEnabled <==> s.irqEnabled || (IrqDisabled in s.flags && PollStep(s.flags, op.events).mask == {}))
    // INIT takes effect exactly on a zero word, and then masks the interrupt
    ensures op.Start? ==> (r == s <==> s.flags != {})
    ensures op.Start? && s.flags == {} ==>
      !r.irqEnabled && r.flags * ON_MASK == OnFlags(op.arg) && r.flags - ON_MASK == {IrqDisabled}
    // EXIT leaves only GC_ADDR_SYNC, with the interrupt unmasked
    ensures op.Stop? ==> r.flags == {GcAddrSync} && r.irqEnabled
  {
    match op
    case Notify(d, w) => Shared(CallbackStep(s.flags, d, w).flags, s.irqEnabled)
    case Wait(events) =>
      var r := PollStep(s.flags, events);
      Shared(r.flags, s.irqEnabled || r.enableIrq)
    case Start(arg) =>
      if s.flags != {} then s else Shared(SessionFlags(arg), false)
    case Stop => Shared(EXIT_FLAGS, true)
  }

  function Run(s: Shared, ops: seq<Op>): Shared
    decreases |ops|
  {
    if ops == [] then s else Run(Step(s, ops[0]), ops[1..])
  }

  /** Every critical section keeps the invariant. */
  lemma StepKeepsInv(s: Shared, op: Op)
    requires Inv(s)
    ensures Inv(Step(s, op))
  {
    match op
    case Notify(d, w) =>
    case Wait(events) =>
    case Start(arg) =>
    case Stop =>
  }

  /** Every run of critical sections keeps the invariant. */
  lemma {:induction false} RunKeepsInv(s: Shared, ops: seq<Op>)
    requires Inv(s)
    ensures Inv(Run(s, ops))
    decreases |ops|
  {
    if ops != [] {
      StepKeepsInv(s, ops[0]);
      RunKeepsInv(Step(s, ops[0]), ops[1..]);
    }
  }

  /** A poll that returns an empty mask from a state satisfying the
      invariant leaves the IRQ enabled: the caller never sleeps masked. */
  lemma EmptyPollLeavesIrqOn(s: Shared, events: set<PollEvent>)
    requires Inv(s)
    requires PollStep(s.flags, events).mask == {}
    ensures Step(s, Wait(events)).irqEnabled
    ensures IrqDisabled !in Step(s, Wait(events)).flags
  {
  }

  /** Operations that leave direction d's pending bit alone: callbacks
      and polls that do not request d. */
  predicate Quiet(op: Op, d: Dir)
  {
    match op
    case Notify(_, _) => true
    case Wait(events) => !Wants(events, d)
    case Start(_) => false
    case Stop => false
  }

  /** A set pending bit survives any run of quiet operations. */
  lemma {:induction false} PendingSurvives(s: Shared, ops: seq<Op>, d: Dir)
    requires PendingBit(d) in s.flags
    requires forall i :: 0 <= i < |ops| ==> Quiet(ops[i], d)
    ensures PendingBit(d) in Run(s, ops).flags
    decreases |ops|
  {
    if ops != [] {
      assert Quiet(ops[0], d);
      PendingSurvives(Step(s, ops[0]), ops[1..], d);
    }
  }

  /** No notification is lost: after a callback for an enabled direction
      d, a later poll requesting d reports d, whatever callbacks and polls
      for other directions came between. */
  lemma {:induction false} NotifyNotLost(s: Shared, d: Dir, w: bool, between: seq<Op>, events: set<PollEvent>)
    requires OnBit(d) in s.flags
    requires forall i :: 0 <= i < |between| ==> Quiet(between[i], d)
    requires Wants(events, d)
    ensures DirEvents(d) <= PollStep(Run(Step(s, Notify(d, w)), between).flags, events).mask
  {
    PendingSurvives(Step(s, Notify(d, w)), between, d);
  }

  /** A second poll with the same key, with no callback in between,
      finds nothing ready. */
  lemma PollConsumes(flags: set<Flag>, events: set<PollEvent>)
    ensures PollStep(PollStep(flags, events).flags, events).mask == {}
  {
  }

  /** EXIT leaves GC_ADDR_SYNC set, and INIT tests the whole word: a
      session cannot be restarted until code outside this file clears
      that bit. */
  lemma RestartAfterExitIsBusy(s: Shared, arg: bv64)
    ensures Step(Step(s, Stop), Start(arg)) == Step(s, Stop)
  {
  }

  /** INIT on a busy word changes nothing. */
  lemma StartWhileActiveIsNoop(s: Shared, arg: bv64)
    requires s.flags != {}
    ensures Step(s, Start(arg)) == s
  {
  }

  /** The callback as nf10_user.c writes it: the ON bit is tested before
      user_lock is taken, so another critical section (`between`) can run
      after the test and before the locked update. */
  function InterleavedCallback(s: Shared, d: Dir, otherWaiting: bool, between: Op): (r: Shared)
    ensures OnBit(d) !in s.flags ==> r == Step(s, between)
    ensures OnBit(d) in s.flags ==> PendingBit(d) in r.flags
    ensures OnBit(d) in s.flags ==> r.irqEnabled == Step(s, between).irqEnabled
  {
    var t := Step(s, between);
    if OnBit(d) !in s.flags then t else Shared(MarkStep(t.flags, d, otherWaiting), t.irqEnabled)
  }

  /** An EXIT that runs between the callback's unlocked test and its
      locked update leaves RX_PENDING (and IRQ_DISABLED) on a word whose
      session has ended: the invariant the atomic callback keeps is lost. */
  lemma ExitRaceBreaksInv()
    ensures var s := Shared({RxOn}, true);
      Inv(s) && !Inv(InterleavedCallback(s, Rx, false, Stop))
  {
    var r := InterleavedCallback(Shared({RxOn}, true), Rx, false, Stop);
    assert RxPending in r.flags && RxOn !in r.flags;
  }

  /** With the test moved under the lock, whichever of EXIT and the
      callback comes first, the invariant holds after both. */
  lemma LockedTestKeepsInv(s: Shared, d: Dir, w: bool)
    requires Inv(s)
    ensures Inv(Step(Step(s, Stop), Notify(d, w)))
    ensures Inv(Step(Step(s, Notify(d, w)), Stop))
  {
  }

  /** Session start, an rx interrupt and two polls for rx: the first poll
      reports rx and consumes it, the second finds nothing. */
  lemma RxScenario(arg: bv64)
    requires arg & Bit(RxOn) != 0
    ensures var s1 := Run(Shared({}, true), [Start(arg), Notify(Rx, false)]);
      PollStep(s1.flags, {PollIn}).mask == {PollIn, PollRdNorm}
      && RxPending !in PollStep(s1.flags, {PollIn}).flags
      && PollStep(Step(s1, Wait({PollIn})).flags, {PollIn}).mask == {}
  {
    var s0 := Step(Shared({}, true), Start(arg));
    var s1 := Step(s0, Notify(Rx, false));
    assert Run(Shared({}, true), [Start(arg), Notify(Rx, false)]) == s1 by {
      assert [Start(arg), Notify(Rx, false)][1..] == [Notify(Rx, false)];
      assert [Notify(Rx, false)][1..] == [];
    }
    assert PollIn in {PollIn} * DirEvents(Rx);
    assert RxPending in s1.flags;
    PollConsumes(s1.flags, {PollIn});
  }
}

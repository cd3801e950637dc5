# NetFPGA-10G user interface: a Dafny model

This project models the user-facing control and notification layer of the
NetFPGA-10G NIC driver, `nf10_user.c`:

- the AXI register-bus transaction (`write_axi`, `read_axi`, `check_axi`
  and the completion-word macros): clear the completion slot, issue the
  command, spin on the slot's status for at most `AXI_LOOP_THRESHOLD`
  reads, and turn a NACK into `-EFAULT`;
- the session flags word `adapter->user_flags` and its critical sections:
  the consumer `nf10_poll`, the interrupt-side producer
  `nf10_user_callback`, and the INIT and EXIT ioctls;
- the ioctl dispatcher `nf10_ioctl` (READ_STAT, WRITE_REG, READ_REG, INIT,
  EXIT, PREPARE_RX, XMIT, unknown commands);
- the checks and the mapping counter of `nf10_mmap`.

Files:

- `base.dfy` (module `Base`): `Option`, the errno values, and the C integer
  views (`u32`, `int`) that return values pass through.
- `axi.dfy` (module `Axi`): completion words as `bv64`; the hardware is a
  function `hw: nat -> bv64` giving the word seen on the i-th read of the
  completion slot. `Spin` specifies the bounded loop; `SpinLoop` is the
  loop itself, shared by `WriteAxi` and `ReadAxi`.
- `userflags.dfy` (module `UserFlags`): the flags as a set of UF_* bits,
  each critical section as a function of the flags it finds (`PollStep`,
  `CallbackStep`, `SessionFlags`, `EXIT_FLAGS`), runs of critical sections
  (`Step`, `Run`) and the properties proved about them. `MarkStep` is the
  locked half of the callback alone, and `InterleavedCallback` is the
  callback as written, with another critical section able to run between
  its unlocked test and its locked update.
- `adapter.dfy` (module `Device`): class `Adapter` with the fields
  `userFlags`, `nrUserMmap`, the ghost interrupt mask `irqEnabled`, and
  `rxWaiting`/`txWaiting` (whether each wait queue has a waiter). Its
  methods update the fields step by step as the C code does and are proved
  against the functions of `UserFlags` and `Axi`; its invariant `Valid()`
  says that a pending bit is only set for an enabled direction and that
  the interrupt is masked only while `IrqDisabled` is set. `PollDone` is
  not code of `nf10_user.c`: it is an environment action standing for the
  kernel's poll core (`poll_freewait`) removing the caller from the queues
  when its poll call ends, so that the waiter booleans can fall again.

Notes on what the code does, where it differs from a plain reading of its
intent:

- `nf10_poll` registers the caller on every requested queue (`poll_wait`
  comes before the pending test), not only on the directions that are not
  ready.
- `read_axi` reads the completion slot once more after the loop to take
  the datum; the model takes the datum from that later read
  (`hw(Spin(hw).polls)`).
- WRITE_REG and READ_REG keep the result of `check_axi` in a `u32` local
  and return it from a function returning `long`, so a NACK returns
  2^32 - 14 rather than -14; truncation to `int` on the way back to user
  space gives -EFAULT. The model returns the `long` as written and proves
  the truncated value.
- EXIT with an exit hook whose result cannot be copied to user memory
  returns -EFAULT before it resets the counter and the flags; INIT whose
  copy fails returns -EFAULT after it has set the flags and masked the
  interrupt.
- INIT tests the whole flags word, and EXIT leaves `GcAddrSync` set, so a
  second INIT after EXIT is busy until code outside this file clears that
  bit (`RestartAfterExitIsBusy`).
- `nf10_user_callback` tests the direction's ON bit before it takes
  `user_lock`, and INIT and EXIT write the flags word without taking it.
  `CallbackStep`, `Step` and `Adapter.UserCallback` run the test and the
  update as one atomic step, and the invariant (`StepKeepsInv`,
  `RunKeepsInv`, `Adapter.Valid`) is proved for that atomic callback.
  The callback as written can lose it to an EXIT that runs between its
  test and its update (`ExitRaceBreaksInv`, under Findings).

## Model

| member | source | states |
|---|---|---|
| `Axi.Stat` | nf10_user.c:65 | the status is the upper half of a completion word: shifted back into bits 63..32 and joined with the word's low 32 bits it gives the word again |
| `Axi.Data` | nf10_user.c:66 | the data half of a completion word fits in 32 bits |
| `Axi.Completion` | nf10_user.c:61-66 | a word built from a status and a datum yields that status from bits 63..32 and that datum from bits 31..0 |
| `Axi.CompletionSplits` | nf10_user.c:65-66 | every completion word is exactly its status and data halves put back together |
| `Axi.ReadRegReply` | nf10_user.c:285 | the READ_REG reply keeps the completion datum in its low 32 bits and carries the address's low 32 bits in its upper half |
| `Axi.StopPoll` | nf10_user.c:194-199 | the spin stops at the first read whose status is not WAIT, or at the last read the threshold allows, and every read before it was WAIT |
| `Axi.Spin` | nf10_user.c:183-199 | a transaction makes between 1 and AXI_LOOP_THRESHOLD status reads, never reports WAIT, reports the status of the read that ended it, and reports NACK after AXI_LOOP_THRESHOLD reads when all of them were WAIT |
| `Axi.SpinUnique` | nf10_user.c:194-199 | any read that stops the spin with only WAIT before it is the one the transaction ends on |
| `Axi.SilentHardwareNacks` | nf10_user.c:181-199 | hardware that never answers makes the transaction end with NACK after exactly AXI_LOOP_THRESHOLD reads instead of hanging |
| `Axi.PromptHardware` | nf10_user.c:194 | hardware that has answered by the first read ends the transaction after one read with its own status |
| `Axi.SpinLoop` | nf10_user.c:194-199 | the counter-updating loop produces exactly the status and read count that `Spin` specifies |
| `Axi.WriteAxi` | nf10_user.c:184-205 | write_axi returns the transaction's status, which is never WAIT |
| `Axi.ReadAxi` | nf10_user.c:207-229 | read_axi returns the transaction's status, never WAIT, and the 32-bit datum of the read after the loop |
| `Axi.CheckAxi` | nf10_user.c:231-240 | for a status that is not WAIT, check_axi gives -EFAULT exactly for NACK and 0 exactly for every other status |
| `Base.AsU32` | nf10_user.c:258-268 | a value stored in a `u32` lies in [0, 2^32) and is congruent to the stored value modulo 2^32 |
| `Base.AsInt32` | nf10_user.c:242 | a `long` seen as an `int` lies in the signed 32-bit range and is congruent to it modulo 2^32 |
| `Base.ErrnoThroughU32` | nf10_user.c:275-284 | -EFAULT stored in a `u32` and returned as a `long` is 2^32 - 14, and reads back as -EFAULT once truncated to `int` |
| `UserFlags.OnFlags` | nf10_user.c:301 | `arg & UF_ON_MASK` holds only ON bits, RX_ON exactly when arg has that bit and TX_ON likewise |
| `UserFlags.SessionFlags` | nf10_user.c:300-305 | INIT installs IRQ_DISABLED, the ON bits present in arg, and nothing else |
| `UserFlags.PollStep` | nf10_user.c:145-172 | each requested pending direction is cleared and reported with both its event bits; other directions are neither reported nor changed; the IRQ is re-enabled exactly when the mask is empty and IRQ_DISABLED was set, which then clears IRQ_DISABLED and sets GC_ADDR_SYNC if tx was requested; an empty mask never leaves IRQ_DISABLED set; the ON bits are untouched |
| `UserFlags.CallbackStep` | nf10_user.c:442-472 | the callback is relevant exactly when the direction's ON bit is set; otherwise nothing changes; if relevant the pending bit is set, IRQ_DISABLED ends set exactly when it was set or the other queue has no waiter, and no other bit changes |
| `UserFlags.MarkStep` | nf10_user.c:462-468 | the locked update sets the direction's pending bit, leaves IRQ_DISABLED set exactly when it was set or the other queue has no waiter, and changes no other bit, whatever the ON bits say |
| `UserFlags.CallbackSparesOtherWaiter` | nf10_user.c:464-468 | with a waiter on the other queue the callback never newly sets IRQ_DISABLED |
| `UserFlags.Step` | nf10_user.c:292-328 | callbacks and polls never change the ON bits; a callback leaves the interrupt mask alone and a poll unmasks it exactly when it finds nothing with IRQ_DISABLED set; INIT changes the state exactly when the word is zero, and then installs the argument's ON bits and IRQ_DISABLED and masks the interrupt; EXIT leaves only GC_ADDR_SYNC with the interrupt unmasked |
| `UserFlags.StepKeepsInv` | nf10_user.c:145-472 | each of poll, the callback run as one critical section, INIT and EXIT keeps "pending implies enabled" and "interrupt masked implies IRQ_DISABLED set" |
| `UserFlags.RunKeepsInv` | nf10_user.c:292-328 | every sequence of those critical sections, with each callback atomic, keeps the invariant |
| `UserFlags.EmptyPollLeavesIrqOn` | nf10_user.c:161-172 | from a state satisfying the invariant, a poll returning an empty mask leaves the interrupt unmasked, so the caller never sleeps with it masked |
| `UserFlags.PendingSurvives` | nf10_user.c:145-160 | a pending bit stays set through any callbacks and through polls that do not request its direction |
| `UserFlags.NotifyNotLost` | nf10_user.c:462-470 | after a callback for an enabled direction, a later poll requesting it reports it, whatever callbacks and other polls came between |
| `UserFlags.PollConsumes` | nf10_user.c:145-160 | a second poll with the same key and no callback between reports nothing |
| `UserFlags.RestartAfterExitIsBusy` | nf10_user.c:296-327 | INIT right after EXIT is rejected and changes nothing, because EXIT leaves GC_ADDR_SYNC in the word INIT tests |
| `UserFlags.StartWhileActiveIsNoop` | nf10_user.c:296-299 | INIT on a nonzero flags word leaves the state unchanged |
| `UserFlags.RxScenario` | nf10_user.c:296-305 | INIT with RX_ON, an rx callback and a poll for POLLIN report POLLIN and POLLRDNORM and clear RX_PENDING; a second poll reports nothing |
| `UserFlags.InterleavedCallback` | nf10_user.c:442-470 | the callback as written: a direction found off changes nothing beyond the step that ran in between; a direction found on ends pending even if the step in between turned it off, and the interrupt mask is the one that step left |
| `UserFlags.ExitRaceBreaksInv` | nf10_user.c:442-468 | from a session with only RX_ON, an EXIT between the callback's test and its update leaves RX_PENDING on a word without RX_ON, so the invariant no longer holds |
| `UserFlags.LockedTestKeepsInv` | nf10_user.c:442-470 | with the ON test under the lock, the invariant holds after a callback and an EXIT in either order |
| `Device.Events` | nf10_user.c:136 | without a poll table the poll asks for both directions |
| `Device.Adapter.Poll` | nf10_user.c:132-179 | nf10_poll returns the mask and leaves the flags and interrupt state `PollStep` gives, registers the caller on each requested queue when a queueing table is passed, keeps `Valid()`, and an empty mask leaves the interrupt enabled |
| `Device.Adapter.UserCallback` | nf10_user.c:435-473 | nf10_user_callback returns relevance and leaves the flags `CallbackStep` gives for the current waiter on the other queue; the interrupt mask, counter and queues are unchanged |
| `Device.WriteRegReply` | nf10_user.c:252-270 | WRITE_REG returns 0 exactly when the transaction did not end in NACK, copies nothing back, and after a NACK returns the `long` 2^32 - 14, which reads as -EFAULT once truncated to `int` |
| `Device.ReadRegOutcome` | nf10_user.c:271-291 | READ_REG returns -EFAULT on an unreadable argument; a NACK returns the `long` 2^32 - 14 (the u32 view of -EFAULT); a failed copy back after a good transaction returns -EFAULT; a value is copied back exactly when the address was read, the transaction did not NACK and the copy succeeds, and it then holds the completion datum in its low half and the address in its high half; every path that copies nothing returns -EFAULT as an `int` |
| `Device.Adapter.Ioctl` | nf10_user.c:242-354 | READ_STAT returns 0; WRITE_REG and READ_REG return what `WriteRegReply` and `ReadRegOutcome` give and change no session state; INIT is -EBUSY with nothing changed on a nonzero word, else installs the session flags, zeroes the counter, masks the interrupt and copies the hook's result (or returns -EFAULT with the session already set up); EXIT with an uncopyable hook result returns -EFAULT with nothing changed, else sets the flags to exactly GC_ADDR_SYNC, zeroes the counter and unmasks the interrupt; PREPARE_RX and XMIT without their hook return -ENOTSUPP, XMIT otherwise the hook's status; other commands -EINVAL |
| `Device.Adapter.Mmap` | nf10_user.c:86-125 | misaligned bounds, a missing get_pfn or a zero pfn give -EINVAL; otherwise the remap's result is returned; the counter grows by one exactly when the result is 0 and is unchanged otherwise |

## Left out

- `nf10_open`, `nf10_release`, `nf10_init_fops` and `nf10_remove_fops`: character-device registration and DMA allocation of the completion buffer.
- `nf10_ethtool.c`: a get/set of `msg_enable` through ethtool_ops.
- Concurrency: `user_lock`, `axi_mutex`, sleeping and `wake_up_interruptible_poll`. Each locked region is one atomic method, INIT and EXIT are atomic too, and the wait queues are booleans.
- `UserFlags.CallbackStep`: joins the unlocked ON test of nf10_user.c:442-444 to the update under `user_lock` at nf10_user.c:462-470. `PendingNeedsOn`, and with it `Inv` and `Adapter.Valid`, is proved only for this atomic callback; the callback as written is `InterleavedCallback`, and `ExitRaceBreaksInv` shows it breaks the invariant.
- `Device.Adapter.UserCallback`: runs the callback atomically, as `CallbackStep` does; another thread running between its test and its update is not modelled by the class.
- The kernel's `poll_freewait` is not code of nf10_user.c; `Device.Adapter.PollDone` is an environment action that stands for it and takes the caller off both queues at once.
- The hardware accesses `wmb`, `writeq` and the clearing store to the completion slot: the slot's contents after the command are the `hw` function.
- The register contents behind a transaction: a write followed by a read of the same register returning the written value is a property of the device, not of this code.
- The hooks of `user_ops`, `get_pfn` and `remap_pfn_range` are oracles: their results are inputs, their effects on other adapter state are not modelled.
- `copy_to_user` and `copy_from_user` are reduced to whether the user memory at `arg` can be read (and what it holds) and written.
- Masking the interrupt after the callback asked for it is done by the NAPI loop, which is not part of this model; only the unmasking and masking done in this file change `irqEnabled`.
- The `CONFIG_OSNT` WRITE_REG_PY command, `netif_dbg`/`pr_err` logging and the kernel-version macro for the poll key.
- nf10_user.h is not part of this model: the UF_* bit positions are placeholders (only their distinctness is used) and the ioctl numbers are replaced by the `Cmd` datatype.
- `Device.Adapter.Mmap`: `nr_user_mmap` is an unbounded counter; the wrap-around of its C integer type is not modelled. PAGE_SIZE is taken as 4096.

## Findings

| source | as written | input that shows it | evidently intended | confidence | as-written member | corrected member |
|---|---|---|---|---|---|---|
| nf10_user.c:442-468 | `nf10_user_callback` tests the ON bit before `spin_lock_bh(&user_lock)`, and EXIT (nf10_user.c:325-327) rewrites the flags without that lock; an EXIT between the test and the locked update leaves RX_PENDING and IRQ_DISABLED on the word `{GC_ADDR_SYNC}`, and the callback still returns true, so the NAPI loop masks the interrupt EXIT has just unmasked | flags `{RX_ON}`, interrupt unmasked, an rx callback whose test passes, then EXIT, then the callback's locked part with no tx waiter | the ON test and the update in one critical section, so a callback after EXIT finds the direction off and changes nothing | medium; not executed; needs EXIT to run on another CPU inside the callback's window | `UserFlags.ExitRaceBreaksInv` | `UserFlags.LockedTestKeepsInv` |

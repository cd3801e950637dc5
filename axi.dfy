/** The AXI register-bus transaction of nf10_user.c: the 64-bit completion
    word the hardware writes back, the bounded spin that waits for it
    (write_axi, read_axi) and the mapping of its status to an errno
    (check_axi).

    The hardware is abstract: `hw(i)` is the completion word seen on the
    i-th read of the completion slot after the driver has cleared it and
    issued the command. */
module Axi {
  import opened Base

  // Status codes carried in the upper 32 bits of a completion word.
  const WAIT: bv32 := 0x0
  const OKAY: bv32 := 0x1
  const NACK: bv32 := 0x2

  /** Safety bound on the number of status reads of one transaction. */
  const AXI_LOOP_THRESHOLD: nat := 100000000

  /** axi_completion_stat: bits 63..32 of a completion word. */
  function Stat(c: bv64): (s: bv32)
    ensures c == ((s as bv64) << 32) | (c & 0xFFFF_FFFF)
  {
    (c >> 32) as bv32
  }

  /** axi_completion_data: bits 31..0 of a completion word, as a u64. */
  function Data(c: bv64): (d: bv64)
    ensures d <= 0xFFFF_FFFF
  {
    c & 0xFFFF_FFFF
  }

  /** The completion word the hardware writes for a status and a datum. */
  function Completion(stat: bv32, data: bv32): (c: bv64)
    ensures Stat(c) == stat
    ensures Data(c) == data as bv64
  {
    ((stat as bv64) << 32) | data as bv64
  }

  /** Every completion word is the one built from its own status and data. */
  lemma CompletionSplits(c: bv64)
    ensures Completion(Stat(c), Data(c) as bv32) == c
  {
  }

  /** The low 32 bits of a u64, as `addr << 32` keeps them in the upper half. */
  function Low32(x: bv64): bv32
  {
    (x & 0xFFFF_FFFF) as bv32
  }

  /** The value READ_REG hands back: the datum with the register address
      OR'd into the upper bits (`val |= addr << 32`), for older rdaxi
      clients. */
  function ReadRegReply(addr: bv64, val: bv64): (r: bv64)
    ensures Data(r) == Data(val)
    ensures val <= 0xFFFF_FFFF ==> Stat(r) == Low32(addr)
  {
    val | (addr << 32)
  }

  /** Index of the status read at which the spin stops when the search
      starts at read i: the first read that is not WAIT, or the last read
      the threshold allows. */
  function StopPoll(hw: nat -> bv64, i: nat): (k: nat)
    requires i < AXI_LOOP_THRESHOLD
    ensures i <= k < AXI_LOOP_THRESHOLD
    ensures forall j :: i <= j < k ==> Stat(hw(j)) == WAIT
    ensures Stat(hw(k)) != WAIT || k == AXI_LOOP_THRESHOLD - 1
    decreases AXI_LOOP_THRESHOLD - i
  {
    if Stat(hw(i)) != WAIT || i == AXI_LOOP_THRESHOLD - 1 then i
    else StopPoll(hw, i + 1)
  }

  /** The outcome of one transaction: the status returned and the number
      of status reads made. */
  datatype Transaction = Transaction(status: bv32, polls: nat)

  /** The outcome of the bounded spin against the hardware `hw`. */
  function Spin(hw: nat -> bv64): (t: Transaction)
    ensures 1 <= t.polls <= AXI_LOOP_THRESHOLD
    ensures t.status != WAIT
    ensures forall j :: 0 <= j < t.polls - 1 ==> Stat(hw(j)) == WAIT
    ensures Stat(hw(t.polls - 1)) != WAIT ==> t.status == Stat(hw(t.polls - 1))
    ensures Stat(hw(t.polls - 1)) == WAIT ==> t.polls == AXI_LOOP_THRESHOLD && t.status == NACK
  {
    var k := StopPoll(hw, 0);
    if Stat(hw(k)) == WAIT then Transaction(NACK, AXI_LOOP_THRESHOLD)
    else Transaction(Stat(hw(k)), k + 1)
  }

  /** Any stopping read that has only WAIT before it is the one Spin picks. */
  lemma SpinUnique(hw: nat -> bv64, k: nat)
    requires k < AXI_LOOP_THRESHOLD
    requires forall j :: 0 <= j < k ==> Stat(hw(j)) == WAIT
    requires Stat(hw(k)) != WAIT || k == AXI_LOOP_THRESHOLD - 1
    ensures Spin(hw).polls == k + 1
  {
  }

  /** A hardware that never leaves WAIT yields NACK after exactly
      AXI_LOOP_THRESHOLD reads instead of hanging. */
  lemma SilentHardwareNacks(hw: nat -> bv64)
    requires forall i :: Stat(hw(i)) == WAIT
    ensures Spin(hw) == Transaction(NACK, AXI_LOOP_THRESHOLD)
  {
  }

  /** A hardware that has completed by the first read ends the spin there
      with its status. */
  lemma PromptHardware(hw: nat -> bv64)
    requires Stat(hw(0)) != WAIT
    ensures Spin(hw) == Transaction(Stat(hw(0)), 1)
  {
  }

  /** The spin loop shared by write_axi and read_axi, after the slot has
      been cleared and the command issued; `polls` counts the status reads. */
  method SpinLoop(hw: nat -> bv64) returns (r: bv32, polls: nat)
    ensures Transaction(r, polls) == Spin(hw)
  {
    var loop: nat := 0;
    r := Stat(hw(loop));
    while r == WAIT
      invariant loop < AXI_LOOP_THRESHOLD
      invariant r == Stat(hw(loop))
      invariant forall j :: 0 <= j < loop ==> Stat(hw(j)) == WAIT
      decreases AXI_LOOP_THRESHOLD - loop
    {
      loop := loop + 1;
      if loop >= AXI_LOOP_THRESHOLD {
        SpinUnique(hw, loop - 1);
        r := NACK;
        polls := loop;
        return;
      }
      r := Stat(hw(loop));
    }
    SpinUnique(hw, loop);
    polls := loop + 1;
  }

  /** write_axi: the returned status is never WAIT, and it is NACK when
      the threshold is reached. */
  method WriteAxi(hw: nat -> bv64) returns (r: bv32)
    ensures r == Spin(hw).status
    ensures r != WAIT
  {
    var polls;
    r, polls := SpinLoop(hw);
  }

  /** read_axi: the status as for write_axi; the datum comes from a fresh
      read of the slot after the loop, that is, read number `polls`. */
  method ReadAxi(hw: nat -> bv64) returns (r: bv32, val: bv64)
    ensures r == Spin(hw).status
    ensures r != WAIT
    ensures val == Data(hw(Spin(hw).polls))
    ensures val <= 0xFFFF_FFFF
  {
    var polls;
    r, polls := SpinLoop(hw);
    val := Data(hw(polls));
  }

  /** check_axi: NACK becomes -EFAULT, any other completed status 0; a
      WAIT status is a kernel BUG. */
  function CheckAxi(ret: bv32): (e: int)
    requires ret != WAIT
    ensures e == -EFAULT <==> ret == NACK
    ensures e == 0 <==> ret != NACK
  {
    if ret == NACK then -EFAULT else 0
  }
}

/** The chip driver (w25q128fv.c): one function for each chip operation, and the status poll. */
module W25Q128 {
  import opened NorFlash
  import opened QspiHardware

  datatype DriverStatus = Ok | ErrorCommand | ErrorReceive | ErrorAutopolling

  const SR_BUSY := 1
  const BUSY_CHECK_TIME := 1
  const BUSY_TIMEOUT := 5000
  const PAGE_PROGRAM_CHECK_TIME := 1
  const PAGE_PROGRAM_TIMEOUT := 3

  function EraseCheckTime(size: EraseSize): nat {
    if size.Erase4K? then 10 else 50
  }

  function EraseTimeout(size: EraseSize): nat {
    if size.Erase4K? then 400 else 2000
  }

  const CHIP_ERASE_CHECK_TIME := 1000
  const CHIP_ERASE_TIMEOUT := 200_000

  /** The test of line 90 to 94: logical ORs make the combined status 0 or 1, and only the lowest bit
      of the mask can meet it. */
  predicate PollAccepts(mask: nat, b0: nat, b1: nat) {
    var combined := if b0 != 0 || b1 != 0 then 1 else 0;
    combined * (mask % 2) == 0
  }

  /** For an odd mask such as SR_BUSY, which every caller passes, the poll asks for more than BUSY: two
      whole status bytes have to be zero, write-enable latch and protection bits included. An even mask
      asks for nothing. */
  lemma PollWantsZeroBytes(mask: nat, b0: nat, b1: nat)
    ensures mask % 2 == 1 ==> (PollAccepts(mask, b0, b1) <==> b0 == 0 && b1 == 0)
    ensures mask % 2 == 0 ==> PollAccepts(mask, b0, b1)
  {
  }

  lemma FactorLess(a: nat, b: nat, c: nat)
    requires a * c < b * c
    ensures a < b
  {
    assert (b - a) * c == b * c - a * c;
  }

  /** How long a chip may stay busy for a poll with these times to see the end of it. */
  function PollReach(timeCheck: nat, timeOut: nat): nat
    requires timeCheck > 0 && timeOut > 0
  {
    3 * ((timeOut - 1) / timeCheck)
  }

  lemma PollInTime(polls: nat, timeCheck: nat, timeOut: nat)
    requires timeCheck > 0 && timeOut > 0 && polls * timeCheck < timeOut
    ensures 3 * polls <= PollReach(timeCheck, timeOut)
  {
    var q, r := (timeOut - 1) / timeCheck, (timeOut - 1) % timeCheck;
    assert timeOut - 1 == q * timeCheck + r;
    assert (q + 1) * timeCheck == q * timeCheck + timeCheck;
    FactorLess(polls, q + 1, timeCheck);
  }

  lemma LastPoll(polls: nat, timeCheck: nat, timeOut: nat)
    requires timeCheck > 0 && timeOut > 0 && polls * timeCheck >= timeOut
    ensures 3 * (polls - 1) >= PollReach(timeCheck, timeOut)
  {
    var q := (timeOut - 1) / timeCheck;
    assert q * timeCheck <= timeOut - 1;
    FactorLess(q, polls, timeCheck);
  }

  /** One poll: three samples are read, and the first two are looked at. */
  method PollOnce(hw: Hardware, mode: Interface, mask: nat) returns (code: DriverStatus, accepted: bool)
    requires hw.Valid()
    modifies hw`chip, hw`faults
    ensures hw.Valid() && (code == Ok || code == ErrorCommand || code == ErrorReceive)
    ensures code == Ok ==> hw.faults == old(hw.faults) && hw.hal == Ready && hw.chip == old(hw.chip).Ticks(3)
    ensures code != Ok ==>
      hw.chip == old(hw.chip) && hw.faults >= old(hw.faults) && (hw.hal == Ready ==> hw.faults > old(hw.faults))
    ensures code == Ok && mask % 2 == 0 ==> accepted
    ensures code == Ok && mask % 2 == 1 && mode == hw.chip.mode ==>
      (accepted <==> old(hw.chip).Status() == 0 && old(hw.chip).Tick().Status() == 0)
  {
    accepted := false;
    TicksForm(hw.chip, 3);
    var ok := hw.StatusCommand();
    if !ok {
      return ErrorCommand, accepted;
    }
    var b0, b1, b2;
    ok, b0, b1, b2 := hw.ReceiveStatus(mode);
    if !ok {
      return ErrorReceive, accepted;
    }
    PollWantsZeroBytes(mask, b0, b1);
    return Ok, PollAccepts(mask, b0, b1);
  }

  /** The chip after n polls of three samples: only latch and BUSY can have changed. The poll that follows
      reads two zero bytes exactly if it settles and its time is over. */
  lemma PollTicks(start: Chip, n: nat)
    requires start.Valid()
    ensures var c := start.Ticks(3 * n);
      && c == start.(wel := c.wel, busyFor := c.busyFor) && c.busyFor <= start.busyFor
      && c.Settles() == start.Settles() && (!start.Busy() ==> c == start)
      && c.Ticks(3) == start.Ticks(3 * (n + 1))
      && (c.Status() == 0 && c.Tick().Status() == 0 ==>
            c.Ticks(3).Idle() && start.Settles() && start.busyFor <= 3 * n)
      && (start.Settles() && !(c.Status() == 0 && c.Tick().Status() == 0) ==> 3 * n < start.busyFor)
  {
    var c := start.Ticks(3 * n);
    TicksForm(start, 3 * n);
    TicksForm(start, 3 * (n + 1));
    TicksForm(c, 3);
  }

  /** The status polled three samples at a time, a poll every timeCheck ms for timeOut ms. With an odd
      mask, on a chip that listens, success is reported exactly for a chip that settles, if it does so in
      time and no HAL call fails. Only a poll that never waits would never give up. */
  method SoftPollingCheckLoMask(hw: Hardware, mode: Interface, mask: nat, timeCheck: nat, timeOut: nat)
    returns (code: DriverStatus)
    requires hw.Valid() && (timeCheck > 0 || timeOut == 0)
    modifies hw`chip, hw`faults, hw`seen
    ensures hw.Valid() && hw.faults >= old(hw.faults)
    ensures hw.chip == old(hw.chip).(wel := hw.chip.wel, busyFor := hw.chip.busyFor)
    ensures code == Ok ==> hw.faults == old(hw.faults) && hw.hal == Ready
    ensures code == Ok && mode == hw.chip.mode && mask % 2 == 1 ==>
      hw.chip.Idle() && old(hw.chip).Settles() && hw.seen == |hw.log|
    ensures !(code == Ok && mode == hw.chip.mode && mask % 2 == 1) ==> hw.seen == old(hw.seen)
    ensures hw.chip.Settles() == old(hw.chip).Settles()
    ensures hw.chip.busyFor <= old(hw.chip).busyFor
    ensures !old(hw.chip).Busy() ==> hw.chip == old(hw.chip)
    ensures (code != Ok && mode == hw.chip.mode && timeOut > 0 && old(hw.chip).Settles() && hw.hal == Ready
             && old(hw.chip).busyFor <= PollReach(timeCheck, timeOut)) ==> hw.faults > old(hw.faults)
    ensures code == Ok && mode == hw.chip.mode && mask % 2 == 1 ==>
      timeOut > 0 && old(hw.chip).busyFor <= PollReach(timeCheck, timeOut)
    ensures code == Ok || code == ErrorCommand || code == ErrorReceive
    ensures code == ErrorReceive && hw.hal == Ready ==> hw.faults > old(hw.faults)
    // An even mask is met by the first status that is read.
    ensures mask % 2 == 0 && timeOut > 0 && hw.hal == Ready && hw.faults == old(hw.faults) ==> code == Ok
  {
    ghost var start, polls: nat := hw.chip, 0;
    PollTicks(start, 0);
    var cntTime := 0;
    while cntTime < timeOut
      invariant hw.chip == start.Ticks(3 * polls) && cntTime == polls * timeCheck
      invariant hw.Valid() && hw.faults == old(hw.faults) && hw.seen == old(hw.seen)
      invariant polls > 0 && mode == start.mode && start.Settles() ==> 3 * (polls - 1) < start.busyFor
      invariant polls > 0 ==> mask % 2 == 1
      decreases timeOut - cntTime
    {
      var accepted;
      PollTicks(start, polls);
      PollTicks(start, polls + 1);
      code, accepted := PollOnce(hw, mode, mask);
      if code != Ok {
        return;
      }
      if accepted {
        if mode == start.mode && mask % 2 == 1 {
          hw.seen := |hw.log|;
          PollInTime(polls, timeCheck, timeOut);
        }
        return;
      }
      polls := polls + 1;
      cntTime := cntTime + timeCheck;
    }
    PollTicks(start, polls);
    if timeOut > 0 {
      LastPoll(polls, timeCheck, timeOut);
    }
    return ErrorCommand;
  }

  method SendWriteEnable(hw: Hardware, mode: Interface) returns (code: DriverStatus)
    requires hw.Valid()
    modifies hw`chip, hw`faults, hw`log
    ensures hw.Valid() && hw.log == old(hw.log) && hw.faults >= old(hw.faults)
    ensures || hw.chip == old(hw.chip)
            || (mode == hw.chip.mode && !hw.chip.Busy() && hw.chip == old(hw.chip).(wel := true))
    ensures code == Ok ==> hw.faults == old(hw.faults) && hw.hal == Ready
    ensures code == Ok && mode == hw.chip.mode ==> hw.chip.wel
    ensures code != Ok && mode == hw.chip.mode && !hw.chip.Busy() && hw.hal == Ready ==> hw.faults > old(hw.faults)
  {
    var ok := hw.Command(mode, WriteEnable);
    if !ok {
      return ErrorCommand;
    }
    ok := hw.AwaitWriteEnabled(mode);
    return if ok then Ok else ErrorAutopolling;
  }

  /** The instruction and its data are two HAL calls; if either fails the chip has got nothing. */
  method SendPageProgram(hw: Hardware, mode: Interface, data: seq<bv8>, addr: nat) returns (code: DriverStatus)
    requires hw.Valid()
    modifies hw`chip, hw`faults, hw`log
    ensures hw.Valid() && hw.faults >= old(hw.faults)
    ensures code != Ok ==> hw.Untouched() && (hw.hal == Ready ==> hw.faults > old(hw.faults))
    ensures code == Ok ==> hw.faults == old(hw.faults) && hw.hal == Ready
    ensures mode != old(hw.chip).mode ==> hw.Untouched()
    ensures code == Ok && mode == old(hw.chip).mode ==>
      && hw.log == old(hw.log) + [Arrival(PageProgram(addr, data), old(hw.chip).wel, old(hw.chip).Busy())]
      && (old(hw.chip).CanExecute() ==>
            && hw.chip == old(hw.chip).Started(Programmed(old(hw.chip).mem, addr, data), hw.chip.busyFor)
            && (hw.prompt ==> hw.chip.busyFor <= BusyLimit(PageProgram(addr, data))))
      && (!old(hw.chip).CanExecute() ==> hw.chip == old(hw.chip))
  {
    var ok := hw.Command(mode, PageProgram(addr, data));
    return if ok then Ok else ErrorCommand;
  }

  /** An erase instruction has reached the chip, whose latch was set or not, and the chip has obeyed it if
      it could. */
  twostate predicate EraseArrived(hw: Hardware, i: Instr, m: Memory, wel: bool)
    reads hw
  {
    && hw.log == old(hw.log) + [Arrival(i, wel, old(hw.chip).Busy())]
    && hw.chip.mem == if wel && !old(hw.chip).Busy() then m else old(hw.chip).mem
  }

  /** The outcome of an erase instruction followed by its poll, for both erase functions; m is the memory
      it asks for. */
  twostate predicate EraseOutcome(hw: Hardware, mode: Interface, i: Instr, m: Memory, code: DriverStatus)
    reads hw
  {
    && hw.Valid() && hw.faults >= old(hw.faults)
    && hw.chip.mode == old(hw.chip).mode && hw.chip.protect == old(hw.chip).protect
    && (|| (hw.log == old(hw.log) && hw.chip.mem == old(hw.chip).mem && (code == Ok ==> mode != hw.chip.mode))
        || (mode == hw.chip.mode && EraseArrived(hw, i, m, true))
        || (mode == hw.chip.mode && !old(hw.chip).wel && EraseArrived(hw, i, m, false)))
    && (code == Ok && mode == hw.chip.mode ==> hw.chip.Idle() && hw.seen == |hw.log|)
    && ((code != Ok && mode == hw.chip.mode && hw.prompt && hw.hal == Ready && hw.chip.protect == 0
         && old(hw.chip).busyFor <= BusyLimit(i)) ==> hw.faults > old(hw.faults))
  }

  /** It enables writing itself, and does not look whether that has worked. */
  method SendBlockErase(hw: Hardware, mode: Interface, addr: nat, size: EraseSize) returns (code: DriverStatus)
    requires hw.Valid()
    modifies hw`chip, hw`faults, hw`log, hw`seen
    ensures EraseOutcome(hw, mode, BlockErase(addr, size),
                         Erased(old(hw.chip).mem, addr - addr % BytesOf(size), BytesOf(size)), code)
    // With calls that work, an idle chip is erased whether its latch was set before or not.
    ensures hw.faults == old(hw.faults) && hw.hal == Ready && mode == old(hw.chip).mode && !old(hw.chip).Busy() ==>
      hw.chip.mem == Erased(old(hw.chip).mem, addr - addr % BytesOf(size), BytesOf(size))
  {
    var _ := SendWriteEnable(hw, mode);
    var ok := hw.Command(mode, BlockErase(addr, size));
    if !ok {
      return ErrorCommand;
    }
    code := SoftPollingCheckLoMask(hw, mode, SR_BUSY, EraseCheckTime(size), EraseTimeout(size));
  }

  /** It does not: on a chip whose latch is clear nothing is erased, and success is reported. */
  method SendChipErase(hw: Hardware, mode: Interface) returns (code: DriverStatus)
    requires hw.Valid()
    modifies hw`chip, hw`faults, hw`log, hw`seen
    ensures EraseOutcome(hw, mode, ChipErase, Erased(old(hw.chip).mem, 0, FLASH_SIZE), code)
    ensures !old(hw.chip).wel ==> hw.chip.mem == old(hw.chip).mem
  {
    var ok := hw.Command(mode, ChipErase);
    if !ok {
      return ErrorCommand;
    }
    code := SoftPollingCheckLoMask(hw, mode, SR_BUSY, CHIP_ERASE_CHECK_TIME, CHIP_ERASE_TIMEOUT);
  }
}

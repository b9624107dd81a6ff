/**
  The board driver (drv_qspi_w25q128.c): writes of any length split into page programs, erases, and
  the tracking of the interface mode through initialisation, configuration and memory mapping.
 */
module QspiBsp {
  import opened Bytes
  import opened NorFlash
  import opened PageSplit
  import opened QspiHardware
  import opened W25Q128

  datatype BspStatus = ErrorNone | ComponentFailure | PeriphFailure | MmpLockFailure | MmpUnlockFailure

  datatype Access = AccessNone | AccessIndirect | AccessMmp

  /** What arrives at the chip for a list of calls when each is sent with the latch set and BUSY clear. */
  function Programs(calls: seq<Call>): (s: seq<Arrival>)
    ensures |s| == |calls|
  {
    seq(|calls|, k requires 0 <= k < |calls| => Arrival(PageProgram(calls[k].addr, calls[k].data), true, false))
  }

  lemma ProgramsAppend(calls: seq<Call>, c: Call)
    ensures Programs(calls + [c]) == Programs(calls) + Programs([c])
  {
  }

  /** The size the loop gives its next call. */
  function NextSize(currentAddr: nat, endAddr: nat): nat
    requires currentAddr <= endAddr
  {
    if currentAddr + PAGE_SIZE > endAddr then endAddr - currentAddr else PAGE_SIZE
  }

  /** The variables of the splitting loop before round k: what is left of the data, and where it goes. */
  ghost predicate AtRound(all: seq<Call>, k: nat, addr: nat, left: seq<bv8>, size: nat) {
    k <= |all| && all[k..] == PageCalls(addr, left) && size == ChunkSize(addr, |left|)
  }

  /** One turn of the splitting loop. */
  lemma NextRound(all: seq<Call>, k: nat, addr: nat, left: seq<bv8>, size: nat)
    requires AtRound(all, k, addr, left, size) && left != []
    ensures 0 < size <= |left| && k < |all| && all[k] == Call(addr, left[..size])
    ensures AtRound(all, k + 1, addr + size, left[size..], NextSize(addr + size, addr + |left|))
  {
    assert all[k] == all[k..][0];
    assert all[k + 1..] == all[k..][1..];
  }

  /** What one call more does. */
  lemma CallDone(m: Memory, log: seq<Arrival>, all: seq<Call>, k: nat)
    requires k < |all|
    ensures Applied(m, all[..k + 1]) == Programmed(Applied(m, all[..k]), all[k].addr, all[k].data)
    ensures log + Programs(all[..k + 1]) == (log + Programs(all[..k])) + Programs([all[k]])
  {
    assert all[..k + 1] == all[..k] + [all[k]];
    AppliedAppend(m, all[..k], all[k]);
    ProgramsAppend(all[..k], all[k]);
  }

  class Bsp {
    const hw: Hardware
    var access: Access
    var interfaceMode: Interface

    /** The driver and the chip agree on the interface. */
    ghost predicate Synced()
      reads this, hw
    {
      interfaceMode == hw.chip.mode
    }

    /** What every operation keeps in any case: a driver that is not initialised believes in SPI, the
        power-on mode, and one that is, unless it is memory mapped, has a peripheral that is not mapped. */
    ghost predicate Sane()
      reads this, hw
    {
      && hw.Valid()
      && (access == AccessNone ==> interfaceMode == Spi)
      && (access == AccessIndirect ==> hw.hal != Mapped)
    }

    /** What it keeps with the exceptions found below: an initialised driver agrees with the chip. */
    ghost predicate Valid()
      reads this, hw
    {
      Sane() && (access != AccessNone ==> Synced())
    }

    /** Power-on: pqspi is zero, the peripheral is in reset, the chip may be in either mode. */
    constructor (hw: Hardware)
      requires hw.Valid() && hw.hal == Reset
      ensures this.hw == hw && Valid() && access == AccessNone
    {
      this.hw, access, interfaceMode := hw, AccessNone, Spi;
    }

    // ---------------------------------------------------------------- data path

    method Read(addr: nat, size: nat) returns (ret: BspStatus, data: seq<bv8>)
      requires hw.Valid() && addr + size <= FLASH_SIZE
      modifies hw`faults
      ensures ret == ErrorNone || ret == ComponentFailure
      ensures hw.Untouched() && hw.faults >= old(hw.faults) && |data| == size
      ensures ret == ErrorNone ==> hw.faults == old(hw.faults) && hw.hal == Ready
      ensures ret != ErrorNone && hw.hal == Ready ==> hw.faults > old(hw.faults)
      ensures ret == ErrorNone && Synced() && !hw.chip.Busy() ==> data == hw.chip.mem[addr..addr + size]
    {
      var ok;
      ok, data := hw.ReceiveMemory(interfaceMode, addr, size);
      return if ok then ErrorNone else ComponentFailure, data;
    }

    /** One round of the loop of BSP_QSPI_Write. `next` is the call it makes. To a chip that listens in
        the other mode it means nothing, whatever the driver reads back. */
    method WriteChunk(next: Call) returns (ret: BspStatus)
      requires hw.Valid()
      modifies hw`chip, hw`faults, hw`log, hw`seen
      ensures ret == ErrorNone || ret == ComponentFailure
      ensures hw.Valid() && hw.faults >= old(hw.faults)
      ensures hw.chip.mode == old(hw.chip).mode && hw.chip.protect == old(hw.chip).protect
      ensures || (hw.log == old(hw.log) && hw.chip.mem == old(hw.chip).mem && (Synced() ==> ret != ErrorNone))
              || (Synced() && hw.log == old(hw.log) + Programs([next])
                  && hw.chip.mem == Programmed(old(hw.chip).mem, next.addr, next.data))
      ensures ret == ErrorNone ==> hw.faults == old(hw.faults) && hw.hal == Ready
      ensures ret == ErrorNone && Synced() ==> hw.chip.Idle() && hw.seen == |hw.log|
      ensures ret != ErrorNone ==> hw.seen == old(hw.seen) || hw.seen == |old(hw.log)|
      ensures Synced() && !old(hw.chip).Settles() ==>
        ret != ErrorNone && hw.log == old(hw.log) && hw.chip.mem == old(hw.chip).mem && !hw.chip.Settles()
      ensures Synced() && NoExcuse() && old(hw.chip).Settles() ==> ret == ErrorNone
    {
      var code := SoftPollingCheckLoMask(hw, interfaceMode, SR_BUSY, BUSY_CHECK_TIME, BUSY_TIMEOUT);
      if code != Ok {
        return ComponentFailure;
      }
      code := SendWriteEnable(hw, interfaceMode);
      if code != Ok {
        return ComponentFailure;
      }
      code := SendPageProgram(hw, interfaceMode, next.data, next.addr);
      if code != Ok {
        return ComponentFailure;
      }
      assert Programs([next]) == [Arrival(PageProgram(next.addr, next.data), true, false)];
      code := SoftPollingCheckLoMask(hw, interfaceMode, SR_BUSY, PAGE_PROGRAM_CHECK_TIME, PAGE_PROGRAM_TIMEOUT);
      if code != Ok {
        return ComponentFailure;
      }
      return ErrorNone;
    }

    /** The chip has executed exactly these page programs since, each with the write-enable latch set
        and BUSY clear. */
    twostate predicate Performed(calls: seq<Call>)
      reads this, hw
    {
      && hw.Valid() && hw.faults >= old(hw.faults)
      && hw.chip.mode == old(hw.chip).mode && hw.chip.protect == old(hw.chip).protect
      && Reached(old(hw.log), old(hw.chip).mem, calls)
    }

    /** What the chip has executed since it had this log and this memory. */
    ghost predicate Reached(log: seq<Arrival>, mem: Memory, calls: seq<Call>)
      reads this, hw
    {
      hw.log == log + Programs(calls) && hw.chip.mem == Applied(mem, calls)
    }

    /** One turn of the loop, as part of the list of calls. */
    method WriteTurn(next: Call, ghost all: seq<Call>, ghost done: nat, ghost log: seq<Arrival>, ghost mem: Memory)
      returns (ret: BspStatus, ghost now: nat)
      requires hw.Valid() && done < |all| && (Synced() ==> next == all[done])
      requires Reached(log, mem, all[..done])
      modifies hw`chip, hw`faults, hw`log, hw`seen
      ensures ret == ErrorNone || ret == ComponentFailure
      ensures hw.Valid() && hw.faults >= old(hw.faults)
      ensures hw.chip.mode == old(hw.chip).mode && hw.chip.protect == old(hw.chip).protect
      ensures done <= now <= done + 1 && Reached(log, mem, all[..now])
      ensures !Synced() ==> now == done
      ensures ret == ErrorNone ==> hw.faults == old(hw.faults) && hw.hal == Ready
      ensures ret == ErrorNone && Synced() ==> now == done + 1 && hw.chip.Idle() && hw.seen == |hw.log|
      ensures ret != ErrorNone ==> hw.seen == old(hw.seen) || hw.seen == |old(hw.log)|
      ensures Synced() && !old(hw.chip).Settles() ==> ret != ErrorNone && now == done && !hw.chip.Settles()
      ensures Synced() && NoExcuse() && old(hw.chip).Settles() ==> ret == ErrorNone
    {
      CallDone(mem, log, all, done);
      ret := WriteChunk(next);
      now := if |hw.log| > |old(hw.log)| then done + 1 else done;
    }

    /** No HAL call can be blamed for a failure, and the chip is fast enough. */
    twostate predicate NoExcuse()
      reads this, hw
    {
      && hw.faults == old(hw.faults) && hw.hal == Ready && hw.prompt
      && old(hw.chip).busyFor <= PollReach(BUSY_CHECK_TIME, BUSY_TIMEOUT)
    }

    /** Of the instructions that have arrived since, how many the driver has seen the end of: for a
        write, its completed rounds. */
    twostate function Completed(): nat
      reads hw
    {
      Max(hw.seen - |old(hw.log)|, 0)
    }

    /** The loop of BSP_QSPI_Write; done is how many of the calls reached the chip: those of the rounds
        that were completed or, after a failure, possibly one more. */
    method WritePages(data: seq<bv8>, writeAddr: nat) returns (ret: BspStatus, ghost done: nat)
      requires hw.Valid()
      requires 0 < |data| && writeAddr + |data| <= FLASH_SIZE
      modifies hw`chip, hw`faults, hw`log, hw`seen
      ensures ret == ErrorNone || ret == ComponentFailure
      ensures done <= |PageCalls(writeAddr, data)| && Performed(PageCalls(writeAddr, data)[..done])
      ensures !Synced() ==> done == 0
      ensures ret == ErrorNone ==> hw.faults == old(hw.faults) && hw.hal == Ready
      ensures Synced() && ret == ErrorNone ==> done == Completed() == |PageCalls(writeAddr, data)| && hw.chip.Idle()
      ensures Synced() && ret != ErrorNone ==>
        Completed() < |PageCalls(writeAddr, data)| && Completed() <= done <= Completed() + 1
      ensures Synced() && ret == ErrorNone ==> old(hw.chip).Settles()
      ensures Synced() && !old(hw.chip).Settles() ==> done == 0 && !hw.chip.Settles()
      ensures Synced() && NoExcuse() && old(hw.chip).Settles() ==> ret == ErrorNone
    {
      ret, done := ErrorNone, 0;
      ghost var all, round: nat := PageCalls(writeAddr, data), 0;
      ghost var chip, log, faults, synced := hw.chip, hw.log, hw.faults, Synced();
      var currentSize := PAGE_SIZE - writeAddr % PAGE_SIZE;
      if currentSize > |data| {
        currentSize := |data|;
      }
      var currentAddr, endAddr := writeAddr, writeAddr + |data|;
      var writeData := data;
      assert Programs(all[..0]) == [] && all[0..] == all;
      while currentAddr < endAddr
        invariant currentAddr == endAddr - |writeData|
        invariant 0 <= currentAddr && 0 <= currentSize && AtRound(all, round, currentAddr, writeData, currentSize)
        invariant done == if synced then round else 0
        invariant Reached(log, chip.mem, all[..done])
        invariant hw.Valid() && hw.chip.mode == chip.mode && hw.chip.protect == chip.protect
        invariant hw.faults == faults && ret == ErrorNone
        invariant round == 0 ==> hw.chip == chip && hw.seen <= |log|
        invariant round > 0 ==> hw.hal == Ready
        invariant round > 0 && synced ==> hw.chip.Idle() && hw.seen == |hw.log| && chip.Settles()
        decreases endAddr - currentAddr
      {
        NextRound(all, round, currentAddr, writeData, currentSize);
        ret, done := WriteTurn(Call(currentAddr, writeData[..currentSize]), all, done, log, chip.mem);
        if ret != ErrorNone {
          return;
        }
        round := round + 1;
        currentAddr := currentAddr + currentSize;
        writeData := writeData[currentSize..];
        currentSize := NextSize(currentAddr, endAddr);
      }
    }

    /** A write of any length. Whatever fails, the chip has seen the first j of the calls the data
        splits into, and the target range holds the old contents AND a first part of the data; all of
        it on success. After a failure j is the number of completed rounds or that plus one. With working
        HAL calls and a chip that is fast enough, the write succeeds exactly if the status register
        settles at zero; otherwise nothing reaches the chip. Nothing does either if driver and chip
        disagree about the mode, and the result then says nothing. */
    method Write(data: seq<bv8>, writeAddr: nat) returns (ret: BspStatus)
      requires hw.Valid()
      requires 0 < |data| && writeAddr + |data| <= FLASH_SIZE
      modifies hw`chip, hw`faults, hw`log, hw`seen
      ensures ret == ErrorNone || ret == ComponentFailure
      ensures hw.Valid() && hw.faults >= old(hw.faults)
      ensures hw.chip.mode == old(hw.chip).mode && hw.chip.protect == old(hw.chip).protect
      ensures old(hw.log) <= hw.log
      ensures var calls := PageCalls(writeAddr, data);
        var j := |hw.log| - |old(hw.log)|;
        && j <= |calls|
        && hw.log == old(hw.log) + Programs(calls[..j])
        && Joined(calls[..j]) <= data
        && hw.chip.mem == Overlay(old(hw.chip).mem, writeAddr, Joined(calls[..j]))
        && (Synced() && ret != ErrorNone ==> Completed() < |calls| && Completed() <= j <= Completed() + 1)
        && (Synced() && ret == ErrorNone ==> Completed() == j == |calls|)
      ensures !Synced() ==> hw.log == old(hw.log) && hw.chip.mem == old(hw.chip).mem
      ensures ret == ErrorNone ==> hw.faults == old(hw.faults) && hw.hal == Ready
      ensures Synced() && ret == ErrorNone ==>
        && hw.log == old(hw.log) + Programs(PageCalls(writeAddr, data))
        && hw.chip.mem == Overlay(old(hw.chip).mem, writeAddr, data)
        && hw.chip.Idle()
      ensures Synced() && !old(hw.chip).Settles() ==>
        ret != ErrorNone && !hw.chip.Settles() && hw.log == old(hw.log) && hw.chip.mem == old(hw.chip).mem
      ensures Synced() && NoExcuse() ==> (ret == ErrorNone <==> old(hw.chip).Settles())
    {
      ghost var done;
      ret, done := WritePages(data, writeAddr);
      ghost var calls := PageCalls(writeAddr, data);
      assert calls[..|calls|] == calls;
      PrefixEffect(old(hw.chip).mem, writeAddr, data, done);
      CallsTile(writeAddr, data);
      assert Joined([]) == [];
      assert Overlay(old(hw.chip).mem, writeAddr, []) == old(hw.chip).mem;
    }

    method EraseBlock(addr: nat, size: EraseSize) returns (ret: BspStatus)
      requires hw.Valid()
      modifies hw`chip, hw`faults, hw`log, hw`seen
      ensures ret == ErrorNone || ret == ComponentFailure
      ensures hw.Valid() && hw.faults >= old(hw.faults)
      ensures hw.chip.mode == old(hw.chip).mode && hw.chip.protect == old(hw.chip).protect
      ensures var base := addr - addr % BytesOf(size);
        || (hw.log == old(hw.log) && hw.chip.mem == old(hw.chip).mem && (Synced() ==> ret != ErrorNone))
        || (Synced() && hw.log == old(hw.log) + [Arrival(BlockErase(addr, size), true, false)]
            && hw.chip.mem == Erased(old(hw.chip).mem, base, BytesOf(size)))
      ensures Synced() && ret == ErrorNone ==> hw.chip.Idle() && hw.seen == |hw.log|
      ensures Synced() && !old(hw.chip).Settles() ==>
        ret != ErrorNone && hw.log == old(hw.log) && hw.chip.mem == old(hw.chip).mem && !hw.chip.Settles()
      ensures Synced() && NoExcuse() ==> (ret == ErrorNone <==> old(hw.chip).Settles())
    {
      var code := SoftPollingCheckLoMask(hw, interfaceMode, SR_BUSY, BUSY_CHECK_TIME, BUSY_TIMEOUT);
      if code != Ok {
        return ComponentFailure;
      }
      code := SendWriteEnable(hw, interfaceMode);
      if code != Ok {
        return ComponentFailure;
      }
      code := SendBlockErase(hw, interfaceMode, addr, size);
      return if code == Ok then ErrorNone else ComponentFailure;
    }

    method EraseChip() returns (ret: BspStatus)
      requires hw.Valid()
      modifies hw`chip, hw`faults, hw`log, hw`seen
      ensures ret == ErrorNone || ret == ComponentFailure
      ensures hw.Valid() && hw.faults >= old(hw.faults)
      ensures hw.chip.mode == old(hw.chip).mode && hw.chip.protect == old(hw.chip).protect
      ensures || (hw.log == old(hw.log) && hw.chip.mem == old(hw.chip).mem && (Synced() ==> ret != ErrorNone))
              || (Synced() && hw.log == old(hw.log) + [Arrival(ChipErase, true, false)]
                  && hw.chip.mem == Erased(old(hw.chip).mem, 0, FLASH_SIZE))
      ensures Synced() && ret == ErrorNone ==> hw.chip.Idle() && hw.seen == |hw.log|
      ensures Synced() && !old(hw.chip).Settles() ==>
        ret != ErrorNone && hw.log == old(hw.log) && hw.chip.mem == old(hw.chip).mem && !hw.chip.Settles()
      ensures Synced() && NoExcuse() ==> (ret == ErrorNone <==> old(hw.chip).Settles())
    {
      var code := SoftPollingCheckLoMask(hw, interfaceMode, SR_BUSY, BUSY_CHECK_TIME, BUSY_TIMEOUT);
      if code != Ok {
        return ComponentFailure;
      }
      code := SendWriteEnable(hw, interfaceMode);
      if code != Ok {
        return ComponentFailure;
      }
      code := SendChipErase(hw, interfaceMode);
      return if code == Ok then ErrorNone else ComponentFailure;
    }

    // ---------------------------------------------------------------- runs of data operations

    /** Any sequence of writes and erases with any HAL failures: every instruction that could change
        memory arrives with the write-enable latch set and BUSY clear. A chip whose status does not
        settle, such as one on which a page program was enabled but never arrived, refuses them all. */
    method RunData(ops: seq<Op>) returns (results: seq<BspStatus>)
      requires hw.Valid() && Synced()
      requires forall op :: op in ops ==> !op.IsMode() && op.InRange()
      modifies hw`chip, hw`faults, hw`log, hw`seen
      ensures hw.Valid() && Synced() && |results| == |ops|
      ensures old(hw.log) <= hw.log && Disciplined(hw.log[|old(hw.log)|..])
      ensures !old(hw.chip).Settles() ==>
        hw.log == old(hw.log) && hw.chip.mem == old(hw.chip).mem && !hw.chip.Settles() && ErrorNone !in results
    {
      results := [];
      for i := 0 to |ops|
        invariant hw.Valid() && Synced() && |results| == i
        invariant old(hw.log) <= hw.log && Disciplined(hw.log[|old(hw.log)|..])
        invariant !old(hw.chip).Settles() ==>
          hw.log == old(hw.log) && hw.chip.mem == old(hw.chip).mem && !hw.chip.Settles() && ErrorNone !in results
      {
        ghost var before := hw.log;
        var op := ops[i];
        assert op in ops;
        var ret;
        match op {
          case WriteOp(addr, data) => ret := Write(data, addr);
          case EraseOp(addr, size) => ret := EraseBlock(addr, size);
          case EraseChipOp => ret := EraseChip();
        }
        assert before <= hw.log && Disciplined(hw.log[|before|..]);
        assert hw.log[|old(hw.log)|..] == before[|old(hw.log)|..] + hw.log[|before|..];
        results := results + [ret];
      }
    }

    // ---------------------------------------------------------------- interface mode

    /** Whether a reset in both modes can work: one in QPI mode also clears a latch that was left set,
        one in SPI mode is not reached before the status has settled. */
    ghost predicate ResetWorks()
      reads this, hw
    {
      hw.chip.protect == 0 && (hw.chip.mode == Qpi || hw.chip.Settles())
    }

    /** The two reset commands, on the lines of one mode. A chip in the other mode does not notice. */
    method ResetIn(lines: Interface) returns (ok: bool)
      requires hw.Valid()
      modifies hw`chip, hw`faults, hw`log
      ensures hw.Valid() && hw.log == old(hw.log) && hw.faults >= old(hw.faults)
      ensures hw.chip == if ok && lines == old(hw.chip).mode
        then old(hw.chip).(wel := false, busyFor := 0, mode := Spi) else old(hw.chip)
      ensures if ok then hw.faults == old(hw.faults) && hw.hal == Ready
        else hw.hal == Ready ==> hw.faults > old(hw.faults)
    {
      ok := hw.Command(lines, ResetEnable);
      if ok {
        ok := hw.Command(lines, ResetMemory);
      }
    }

    /** QSPI_ResetMemory: reset the chip in both modes, because its mode may be unknown. */
    method ResetBoth() returns (ret: BspStatus)
      requires Valid() && access == AccessNone
      modifies this, hw`chip, hw`faults, hw`log, hw`seen
      ensures ret == ErrorNone || ret == ComponentFailure
      ensures Valid() && hw.faults >= old(hw.faults)
      ensures hw.chip.mem == old(hw.chip).mem && hw.log == old(hw.log) && hw.chip.protect == old(hw.chip).protect
      ensures !old(hw.chip).Busy() ==> !hw.chip.Busy()
      ensures if ret == ErrorNone then access == AccessIndirect && hw.chip.Idle() && hw.hal == Ready
        else access == AccessNone
      ensures interfaceMode == Spi
      ensures NoExcuse() ==> (ret == ErrorNone <==> old(ResetWorks()))
    {
      var ok := ResetIn(Qpi);
      if !ok {
        return ComponentFailure;
      }
      var code := SoftPollingCheckLoMask(hw, interfaceMode, SR_BUSY, BUSY_CHECK_TIME, BUSY_TIMEOUT);
      if code != Ok {
        return ComponentFailure;
      }
      ok := ResetIn(Spi);
      if !ok {
        return ComponentFailure;
      }
      access, interfaceMode := AccessIndirect, Spi;
      return ErrorNone;
    }

    /** BSP_QSPI_Init: only an instance that is not initialised is touched. */
    method Init() returns (ret: BspStatus)
      requires Sane()
      modifies this, hw
      ensures ret == ErrorNone || ret == ComponentFailure || ret == PeriphFailure
      ensures Sane() && (old(Valid()) ==> Valid()) && hw.faults >= old(hw.faults)
      ensures hw.chip.mem == old(hw.chip).mem && hw.log == old(hw.log) && hw.chip.protect == old(hw.chip).protect
      ensures !old(hw.chip).Busy() ==> !hw.chip.Busy()
      ensures old(access) != AccessNone ==>
        ret == ErrorNone && hw.Untouched() && access == old(access) && interfaceMode == old(interfaceMode)
      ensures old(access) == AccessNone ==> interfaceMode == Spi
      ensures old(access) == AccessNone && ret == ErrorNone ==>
        access == AccessIndirect && hw.chip.Idle() && hw.hal == Ready && Synced()
      ensures old(access) == AccessNone && hw.faults == old(hw.faults) && hw.prompt
              && old(hw.chip).busyFor <= PollReach(BUSY_CHECK_TIME, BUSY_TIMEOUT) ==>
        (ret == ErrorNone <==> old(ResetWorks()))
    {
      ret := ErrorNone;
      if access == AccessNone {
        var ok := hw.HalInit();
        if !ok {
          return PeriphFailure;
        }
        ret := ResetBoth();
        if ret == ErrorNone {
          var code := SoftPollingCheckLoMask(hw, interfaceMode, SR_BUSY, BUSY_CHECK_TIME, BUSY_TIMEOUT);
          if code != Ok {
            ret := ComponentFailure;
          }
        }
      }
    }

    method EnableMemoryMappedMode() returns (ret: BspStatus)
      requires Sane()
      modifies this`access, hw`hal, hw`faults
      ensures ret == ErrorNone || ret == ComponentFailure
      ensures Sane() && hw.faults >= old(hw.faults)
      ensures access == if ret == ErrorNone then AccessMmp else old(access)
      ensures hw.hal == if ret == ErrorNone then Mapped else old(hw.hal)
      ensures ret != ErrorNone && hw.hal == Ready ==> hw.faults > old(hw.faults)
      ensures ret == ErrorNone ==> old(hw.hal) == Ready && hw.faults == old(hw.faults)
      // It keeps the invariant unless an instance that never was initialised disagrees with the chip.
      ensures old(Valid()) ==> (Valid() <==> !(ret == ErrorNone && old(access) == AccessNone && hw.chip.mode == Qpi))
    {
      var ok := hw.HalMap();
      if !ok {
        return ComponentFailure;
      }
      access := AccessMmp;
      return ErrorNone;
    }

    method DisableMemoryMappedMode() returns (ret: BspStatus)
      requires Sane()
      modifies this`access, hw`hal, hw`faults
      ensures old(access) == AccessMmp ==> ret == ErrorNone || ret == ComponentFailure || ret == PeriphFailure
      ensures Sane() && hw.faults >= old(hw.faults)
      ensures access == if ret == ErrorNone then AccessIndirect else old(access)
      ensures ret == ErrorNone ==> hw.hal == Ready
      ensures old(access) != AccessMmp <==> ret == MmpUnlockFailure
      ensures ret == MmpUnlockFailure ==> hw.Untouched()
      // From memory mapping it works exactly if no HAL call fails.
      ensures old(access) == AccessMmp ==> (ret == ErrorNone <==> hw.faults == old(hw.faults))
    {
      if access != AccessMmp {
        return MmpUnlockFailure;
      }
      var ok := hw.HalAbort();
      if !ok {
        return PeriphFailure;
      }
      ok := hw.HalInit();
      if !ok {
        return PeriphFailure;
      }
      var code, _ := Read(0, 1);
      if code != ErrorNone {
        return ComponentFailure;
      }
      access := AccessIndirect;
      return ErrorNone;
    }

    method DeInit() returns (ret: BspStatus)
      requires Sane()
      modifies this, hw`hal, hw`faults
      ensures Sane() && hw.faults >= old(hw.faults)
      ensures ret == ErrorNone || ret == ComponentFailure || ret == PeriphFailure
      ensures ret == ComponentFailure ==> old(access) == access == AccessMmp && interfaceMode == old(interfaceMode)
      ensures ret != ComponentFailure ==> access == AccessNone && interfaceMode == Spi
      ensures ret == ErrorNone ==> hw.hal == Reset
      ensures ret == ErrorNone <==> hw.faults == old(hw.faults)
      ensures ret == PeriphFailure && old(access) != AccessMmp ==> hw.hal == old(hw.hal)
    {
      ret := ErrorNone;
      if access == AccessMmp {
        ret := DisableMemoryMappedMode();
        if ret != ErrorNone {
          return ComponentFailure;
        }
      }
      access, interfaceMode := AccessNone, Spi;
      var ok := hw.HalDeInit();
      return if ok then ErrorNone else PeriphFailure;
    }

    /** BSP_QSPI_ConfigFlash does nothing while memory mapped. Where it reports success, driver and chip
        agree afterwards exactly if they agreed before and the mode is kept, or the mode is changed and
        the chip was not both in agreement and busy: a change from a wrong mode ends up right. */
    method ConfigFlash(mode: Interface) returns (ret: BspStatus)
      requires Sane()
      modifies this, hw`chip, hw`hal, hw`faults, hw`log
      ensures old(access) != AccessMmp ==> ret == ErrorNone || ret == ComponentFailure || ret == PeriphFailure
      ensures Sane() && hw.faults >= old(hw.faults)
      ensures hw.chip == old(hw.chip).(mode := hw.chip.mode) && hw.log == old(hw.log)
      ensures ret == MmpLockFailure <==> old(access) == AccessMmp
      ensures ret == MmpLockFailure ==> hw.Untouched()
      ensures ret != ErrorNone ==>
        interfaceMode == old(interfaceMode) && access == old(access) && hw.chip == old(hw.chip)
      ensures old(access) != AccessMmp ==> (ret == ErrorNone <==> hw.faults == old(hw.faults))
      ensures ret == ErrorNone ==> interfaceMode == mode && access == AccessIndirect && hw.hal == Ready
      ensures ret == ErrorNone ==>
        (Synced() <==> if mode == old(interfaceMode) then old(Synced()) else !(old(Synced()) && old(hw.chip).Busy()))
      ensures ret != ErrorNone ==> hw.hal == old(hw.hal) || hw.hal == Ready
    {
      if access == AccessMmp {
        return MmpLockFailure;
      }
      var ok := hw.HalInit();
      if !ok {
        return PeriphFailure;
      }
      match interfaceMode {
        case Qpi =>
          if mode != Qpi {
            ok := hw.Command(Qpi, ExitQpi);
          }
        case Spi =>
          if mode == Qpi {
            ok := hw.Command(Spi, EnterQpi);
          }
      }
      if !ok {
        return ComponentFailure;
      }
      access, interfaceMode := AccessIndirect, mode;
      return ErrorNone;
    }

    // ---------------------------------------------------------------- runs of all operations

    function Now(): Snapshot
      reads this, hw
    {
      Snapshot(access, interfaceMode, hw.chip.mode, hw.chip.Busy())
    }

    /** One operation of an arbitrary client: whether it ends the agreement. */
    method RunOne(op: Op) returns (ret: BspStatus)
      requires Sane() && op.InRange()
      modifies this, hw
      ensures Sane()
      ensures Exact(Step(op, ret, old(Now()), Now()))
      ensures op.ConfigOp? && old(access) == AccessMmp ==> ret == MmpLockFailure && hw.Untouched()
      ensures old(hw.log) <= hw.log && Disciplined(hw.log[|old(hw.log)|..])
      ensures op.IsMode() ==> hw.chip.mem == old(hw.chip).mem && hw.log == old(hw.log)
    {
      match op
      case WriteOp(addr, data) => ret := Write(data, addr);
      case EraseOp(addr, size) => ret := EraseBlock(addr, size);
      case EraseChipOp => ret := EraseChip();
      case InitOp => ret := Init();
      case DeInitOp => ret := DeInit();
      case ConfigOp(mode) => ret := ConfigFlash(mode);
      case MapOp => ret := EnableMemoryMappedMode();
      case UnmapOp => ret := DisableMemoryMappedMode();
    }

    /** Any sequence of data and mode operations, with any HAL failures, on a chip in any state: as long as
        the driver is initialised it agrees with its chip all the time exactly if no operation was a hazard.
        Whatever happens, instructions that could change memory arrive executable, and an operation on the
        mode leaves memory alone. */
    method Run(ops: seq<Op>) returns (trace: seq<Step>)
      requires Valid() && forall op :: op in ops ==> op.InRange()
      modifies this, hw
      ensures Sane() && |trace| == |ops| && Linked(old(Now()), trace, Now())
      ensures forall i :: 0 <= i < |ops| ==> trace[i].op == ops[i]
      ensures (forall i :: 0 <= i < |trace| ==> Agrees(trace[i].after))
         <==> (forall i :: 0 <= i < |trace| ==> !Hazard(trace[i]))
      ensures old(hw.log) <= hw.log && Disciplined(hw.log[|old(hw.log)|..])
      ensures (forall op :: op in ops ==> op.IsMode()) ==> hw.chip.mem == old(hw.chip).mem && hw.log == old(hw.log)
    {
      trace := [];
      for i := 0 to |ops|
        invariant Sane() && |trace| == i && Linked(old(Now()), trace, Now())
        invariant forall k :: 0 <= k < i ==> trace[k].op == ops[k] && Exact(trace[k])
        invariant old(hw.log) <= hw.log && Disciplined(hw.log[|old(hw.log)|..])
        invariant (forall op :: op in ops ==> op.IsMode()) ==> hw.chip.mem == old(hw.chip).mem && hw.log == old(hw.log)
      {
        assert ops[i] in ops;
        ghost var log, before := hw.log, Now();
        var was := Now();
        var ret := RunOne(ops[i]);
        assert hw.log[|old(hw.log)|..] == log[|old(hw.log)|..] + hw.log[|log|..];
        LinkedAppend(old(Now()), trace, was, Step(ops[i], ret, was, Now()));
        trace := trace + [Step(ops[i], ret, was, Now())];
      }
      AgreesThroughoutIff(old(Now()), trace, Now());
    }

    /** A hazard without any failure: de-initialising forgets QPI mode but leaves the chip in it, and to
        configure SPI then does nothing to the chip. */
    method SpiAfterDeInit()
      requires Valid() && access == AccessIndirect && interfaceMode == Qpi
      modifies this, hw
      ensures hw.faults == old(hw.faults) ==> access == AccessIndirect && !Synced()
    {
      var first := DeInit();
      var second := ConfigFlash(Spi);
    }

    /** Another one: after a de-initialisation that failed at its last step, memory can be mapped. */
    method MapAfterDeInit()
      requires Valid() && access == AccessIndirect && interfaceMode == Qpi && hw.hal == Ready
      modifies this, hw
      ensures hw.faults == old(hw.faults) + 1 && hw.hal == Mapped ==> access == AccessMmp && !Synced()
    {
      var first := DeInit();
      var second := EnableMemoryMappedMode();
    }
  }

  // ------------------------------------------------------------------ agreement over a run

  datatype Op =
    | WriteOp(addr: nat, data: seq<bv8>) | EraseOp(addr: nat, size: EraseSize) | EraseChipOp
    | InitOp | DeInitOp | ConfigOp(mode: Interface) | MapOp | UnmapOp
  {
    predicate IsMode() {
      !WriteOp? && !EraseOp? && !EraseChipOp?
    }

    predicate InRange() {
      WriteOp? ==> 0 < |data| && addr + |data| <= FLASH_SIZE
    }
  }

  /** What the driver believes, and how the chip is. */
  datatype Snapshot = Snapshot(access: Access, interfaceMode: Interface, chipMode: Interface, busy: bool)

  datatype Step = Step(op: Op, ret: BspStatus, before: Snapshot, after: Snapshot)

  predicate Agrees(s: Snapshot) {
    s.access != AccessNone ==> s.interfaceMode == s.chipMode
  }

  /** What a caller must not do: change the mode while a chip in agreement is busy, or configure SPI or map
      memory on an instance that is not initialised while its chip is in QPI mode. */
  predicate Hazard(t: Step) {
    && t.ret == ErrorNone
    && (|| (t.op.ConfigOp? && t.before.interfaceMode == t.before.chipMode != t.op.mode && t.before.busy)
        || ((t.op == ConfigOp(Spi) || t.op == MapOp)
            && t.before.access == AccessNone && t.before.interfaceMode != t.before.chipMode))
  }

  /** Agreement ends exactly at a hazard. */
  predicate Exact(t: Step) {
    Agrees(t.before) ==> (Agrees(t.after) <==> !Hazard(t))
  }

  /** The steps of a run, one after the other. */
  predicate Linked(start: Snapshot, trace: seq<Step>, end: Snapshot) {
    if trace == [] then start == end
    else trace[|trace| - 1].after == end && Linked(start, trace[..|trace| - 1], trace[|trace| - 1].before)
  }

  lemma LinkedAppend(start: Snapshot, trace: seq<Step>, mid: Snapshot, t: Step)
    requires Linked(start, trace, mid) && t.before == mid
    ensures Linked(start, trace + [t], t.after)
  {
    assert (trace + [t])[..|trace|] == trace;
  }

  lemma {:induction false} AgreesThroughoutIff(start: Snapshot, trace: seq<Step>, end: Snapshot)
    requires Agrees(start) && Linked(start, trace, end) && forall i :: 0 <= i < |trace| ==> Exact(trace[i])
    ensures (forall i :: 0 <= i < |trace| ==> Agrees(trace[i].after))
       <==> (forall i :: 0 <= i < |trace| ==> !Hazard(trace[i]))
    ensures (forall i :: 0 <= i < |trace| ==> !Hazard(trace[i])) ==> Agrees(end)
  {
    if trace != [] {
      var n := |trace| - 1;
      AgreesThroughoutIff(start, trace[..n], trace[n].before);
      assert Exact(trace[n]);
      if n > 0 {
        assert trace[n].before == trace[n - 1].after;
      }
      assert forall i :: 0 <= i < n ==> trace[..n][i] == trace[i];
    }
  }

  /** Every memory-changing instruction reached a chip that could execute it. */
  ghost predicate Disciplined(log: seq<Arrival>) {
    forall a :: a in log ==> a.wel && !a.busy && ChangesMemory(a.i)
  }
}

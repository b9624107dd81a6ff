/**
  The QUADSPI peripheral with the chip behind it, as the driver sees it through the HAL. Any HAL call
  may fail, and then the chip is as before. The environment also chooses how long the chip is busy.
  An instruction sent on the wrong number of lines is not understood.
 */
module QspiHardware {
  import opened Bytes
  import opened NorFlash

  datatype HalState = Reset | Ready | Mapped

  /** An instruction that changes memory, with the status of the chip when it arrived. */
  datatype Arrival = Arrival(i: Instr, wel: bool, busy: bool)

  const W25Q128FV_ID: seq<bv8> := [0xEF, 0x40, 0x18]

  /** How many status samples the driver's timeouts allow for each operation: three samples a poll,
      and the last poll has to see the end. */
  function BusyLimit(i: Instr): nat {
    match i
    case BlockErase(_, _) => 3 * 39
    case ChipErase => 3 * 199
    case _ => 3 * 2
  }

  class Hardware {
    var chip: Chip
    var hal: HalState
    /** HAL calls that have failed although the peripheral was ready. */
    var faults: nat
    /** Whether the chip always finishes within the driver's timeouts. */
    const prompt: bool
    ghost var log: seq<Arrival>
    /** How many entries of the log the driver has seen the end of, by a poll that found the chip idle. */
    ghost var seen: nat

    ghost predicate Valid()
      reads this
    {
      chip.Valid() && seen <= |log|
    }

    constructor (chip: Chip, prompt: bool)
      requires chip.Valid()
      ensures Valid() && this.chip == chip && this.prompt == prompt && hal == Reset && faults == 0 && log == []
    {
      this.chip, this.prompt, hal, faults, log, seen := chip, prompt, Reset, 0, [], 0;
    }

    /** Nothing but the fault counter has changed. */
    twostate predicate Untouched()
      reads this
    {
      chip == old(chip) && hal == old(hal) && log == old(log)
    }

    /** A HAL call on a peripheral in state Ready: it works, or it counts as a fault. */
    method Attempt() returns (ok: bool)
      modifies this`faults
      ensures ok ==> hal == Ready && faults == old(faults)
      ensures !ok ==> if hal == Ready then faults == old(faults) + 1 else faults == old(faults)
    {
      if hal != Ready {
        return false;
      }
      ok := *;
      if !ok {
        faults := faults + 1;
      }
    }

    /** HAL_QSPI_Command, for PageProgram followed by HAL_QSPI_Transmit. */
    method Command(lines: Interface, i: Instr) returns (ok: bool)
      requires chip.Valid()
      modifies this`chip, this`faults, this`log
      ensures chip.Valid() && faults >= old(faults)
      ensures ok ==> hal == Ready && faults == old(faults)
      ensures !ok ==> Untouched() && (hal == Ready ==> faults > old(faults))
      ensures ok && lines != old(chip).mode ==> Untouched()
      ensures ok && lines == old(chip).mode ==>
        && chip == old(chip).Executed(i, chip.busyFor)
        && (prompt ==> chip.busyFor <= Max(old(chip).busyFor, BusyLimit(i)))
        && log == old(log) + if ChangesMemory(i) then [Arrival(i, old(chip).wel, old(chip).Busy())] else []
    {
      ok := Attempt();
      if ok && i.PageProgram? {
        ok := Attempt();
      }
      if ok && lines == chip.mode {
        if ChangesMemory(i) {
          log := log + [Arrival(i, chip.wel, chip.Busy())];
        }
        var t: nat :| prompt ==> t <= BusyLimit(i);
        chip := chip.Executed(i, t);
      }
    }

    /** HAL_QSPI_Command for a read of status register 1. */
    method StatusCommand() returns (ok: bool)
      modifies this`faults
      ensures faults >= old(faults)
      ensures ok ==> hal == Ready && faults == old(faults)
      ensures !ok && hal == Ready ==> faults > old(faults)
    {
      ok := Attempt();
    }

    /** HAL_QSPI_Receive of three samples of it, one after the other. */
    method ReceiveStatus(lines: Interface) returns (ok: bool, b0: nat, b1: nat, b2: nat)
      requires chip.Valid()
      modifies this`chip, this`faults
      ensures chip.Valid() && faults >= old(faults)
      ensures ok ==> hal == Ready && faults == old(faults) && chip == old(chip).Ticks(3)
      ensures !ok ==> Untouched() && (hal == Ready ==> faults > old(faults))
      ensures ok && lines == chip.mode ==>
        b0 == old(chip).Status() && b1 == old(chip).Tick().Status() && b2 == old(chip).Ticks(2).Status()
    {
      b0, b1, b2 := *, *, *;
      TicksForm(chip, 1);
      TicksForm(chip, 2);
      TicksForm(chip, 3);
      ok := Attempt();
      if ok {
        if lines == chip.mode {
          b0, b1, b2 := chip.Status(), chip.Tick().Status(), chip.Ticks(2).Status();
        }
        chip := chip.Ticks(3);
      }
    }

    /** HAL_QSPI_AutoPolling for the write-enable latch: success means it has been seen set. */
    method AwaitWriteEnabled(lines: Interface) returns (ok: bool)
      modifies this`faults
      ensures Untouched() && faults >= old(faults)
      ensures ok ==> hal == Ready && faults == old(faults) && (lines == chip.mode ==> chip.wel)
      ensures !ok && lines == chip.mode && chip.wel && hal == Ready ==> faults > old(faults)
    {
      ok := Attempt();
      if ok {
        if lines == chip.mode {
          ok := chip.wel;
        } else {
          ok := *;
        }
      }
    }

    /** HAL_QSPI_FastReceive after a read command. A chip that is busy, or listening on other lines,
        does not answer with its memory. */
    method ReceiveMemory(lines: Interface, addr: nat, size: nat) returns (ok: bool, data: seq<bv8>)
      requires chip.Valid() && addr + size <= FLASH_SIZE
      modifies this`faults
      ensures Untouched() && faults >= old(faults) && |data| == size
      ensures ok ==> hal == Ready && faults == old(faults)
      ensures !ok && hal == Ready ==> faults > old(faults)
      ensures ok && lines == chip.mode && !chip.Busy() ==> data == chip.mem[addr..addr + size]
    {
      ok := Attempt();
      if ok {
        ok := Attempt();
      }
      if lines == chip.mode && !chip.Busy() {
        data := chip.mem[addr..addr + size];
      } else {
        var noise: bv8 := *;
        data := seq(size, _ => noise);
      }
    }

    /** The identification command with its three bytes; what a failed call leaves behind is noise. */
    method ReceiveId(lines: Interface) returns (ok: bool, id: seq<bv8>)
      requires chip.Valid()
      modifies this`faults
      ensures Untouched() && faults >= old(faults) && |id| == 3
      ensures ok ==> hal == Ready && faults == old(faults)
      ensures !ok && hal == Ready ==> faults > old(faults)
      ensures ok && lines == chip.mode && !chip.Busy() ==> id == W25Q128FV_ID
    {
      ok := Attempt();
      if ok {
        ok := Attempt();
      }
      var a: bv8, b: bv8, c: bv8 := *, *, *;
      id := if ok && lines == chip.mode && !chip.Busy() then W25Q128FV_ID else [a, b, c];
    }

    /** HAL_QSPI_Init: the peripheral becomes ready, unless it fails. */
    method HalInit() returns (ok: bool)
      modifies this`hal, this`faults
      ensures faults >= old(faults)
      ensures hal == if ok then Ready else old(hal)
      ensures !ok ==> faults > old(faults)
      ensures ok ==> faults == old(faults)
    {
      ok := *;
      if ok {
        hal := Ready;
      } else {
        faults := faults + 1;
      }
    }

    /** HAL_QSPI_DeInit. */
    method HalDeInit() returns (ok: bool)
      modifies this`hal, this`faults
      ensures faults >= old(faults)
      ensures hal == if ok then Reset else old(hal)
      ensures faults == old(faults) + if ok then 0 else 1
    {
      ok := *;
      if ok {
        hal := Reset;
      } else {
        faults := faults + 1;
      }
    }

    /** HAL_QSPI_MemoryMapped: while mapped, the peripheral refuses every command. */
    method HalMap() returns (ok: bool)
      modifies this`hal, this`faults
      ensures faults >= old(faults)
      ensures hal == if ok then Mapped else old(hal)
      ensures ok ==> old(hal) == Ready && faults == old(faults)
      ensures !ok && hal == Ready ==> faults > old(faults)
    {
      ok := Attempt();
      if ok {
        hal := Mapped;
      }
    }

    /** HAL_QSPI_Abort. */
    method HalAbort() returns (ok: bool)
      modifies this`hal, this`faults
      ensures faults >= old(faults)
      ensures hal == if ok && old(hal) == Mapped then Ready else old(hal)
      ensures ok <==> faults == old(faults)
    {
      ok := *;
      if !ok {
        faults := faults + 1;
      } else if hal == Mapped {
        hal := Ready;
      }
    }
  }
}

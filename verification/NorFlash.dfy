/**
  The W25Q128FV as a value: a NOR array that a program command can only clear bits of, inside one
  256-byte page, and that an erase command sets to 0xFF in aligned blocks; a status register; and the
  interface (SPI or QPI) in which the chip listens.
 */
module NorFlash {
  const FLASH_SIZE := 0x100_0000
  const PAGE_SIZE := 0x100
  const SECTOR_SIZE := 0x1000
  const ERASED: bv8 := 0xFF

  type Memory = seq<bv8>

  datatype Interface = Spi | Qpi
  datatype EraseSize = Erase4K | Erase32K | Erase64K

  function BytesOf(size: EraseSize): (n: nat)
    ensures n % SECTOR_SIZE == 0 && n > 0 && FLASH_SIZE % n == 0
  {
    match size
    case Erase4K => 0x1000
    case Erase32K => 0x8000
    case Erase64K => 0x1_0000
  }

  datatype Instr =
    | WriteEnable
    | PageProgram(addr: nat, data: seq<bv8>)
    | BlockErase(addr: nat, size: EraseSize)
    | ChipErase
    | EnterQpi
    | ExitQpi
    | ResetEnable
    | ResetMemory

  predicate ChangesMemory(i: Instr) {
    i.PageProgram? || i.BlockErase? || i.ChipErase?
  }

  /** A page program: the address counter wraps inside the page, so of more bytes than fit only the
      last one for each cell counts; programming ANDs it into the cell. */
  function Programmed(m: Memory, addr: nat, data: seq<bv8>): (r: Memory)
    ensures |r| == |m|
  {
    seq(|m|, x requires 0 <= x < |m| =>
      var offset := (x - addr) % PAGE_SIZE;
      if x / PAGE_SIZE == addr / PAGE_SIZE && offset < |data|
      then m[x] & data[offset + (|data| - 1 - offset) / PAGE_SIZE * PAGE_SIZE]
      else m[x])
  }

  /** What a caller of the driver wants from programming: data ANDed in from addr on. */
  function Overlay(m: Memory, addr: nat, data: seq<bv8>): (r: Memory)
    ensures |r| == |m|
  {
    seq(|m|, x requires 0 <= x < |m| => if addr <= x < addr + |data| then m[x] & data[x - addr] else m[x])
  }

  function Erased(m: Memory, base: nat, size: nat): (r: Memory)
    ensures |r| == |m|
  {
    seq(|m|, x requires 0 <= x < |m| => if base <= x < base + size then ERASED else m[x])
  }

  /** Inside one page the wrap does not show. */
  lemma ProgramInPage(m: Memory, addr: nat, data: seq<bv8>)
    requires addr % PAGE_SIZE + |data| <= PAGE_SIZE
    ensures Programmed(m, addr, data) == Overlay(m, addr, data)
  {
    forall x | 0 <= x < |m|
      ensures Programmed(m, addr, data)[x] == Overlay(m, addr, data)[x]
    {
      InPageOffset(x, addr, |data|);
    }
  }

  lemma InPageOffset(x: nat, addr: nat, n: nat)
    requires addr % PAGE_SIZE + n <= PAGE_SIZE
    ensures addr <= x < addr + n <==> x / PAGE_SIZE == addr / PAGE_SIZE && (x - addr) % PAGE_SIZE < n
    ensures addr <= x < addr + n ==> (x - addr) % PAGE_SIZE == x - addr && (n - 1 - (x - addr)) / PAGE_SIZE == 0
  {
    var page := addr / PAGE_SIZE;
    if x / PAGE_SIZE == page && x < addr {
      assert (x - addr) % PAGE_SIZE == x - addr + PAGE_SIZE;
    }
  }

  /** Crossing the page boundary does show. A byte k that is meant for a place behind the page misses it,
      and (among the last 256) comes down on the page, counted from its beginning. */
  lemma ProgramAcrossPageWraps(m: Memory, addr: nat, data: seq<bv8>, k: nat)
    requires addr + |data| <= |m|
    requires PAGE_SIZE - addr % PAGE_SIZE <= k < |data| <= k + PAGE_SIZE
    ensures Programmed(m, addr, data)[addr + k] == m[addr + k]
    ensures var x := WrappedTo(addr, k);
      x <= addr + k && Programmed(m, addr, data)[x] == m[x] & data[k]
  {
    WrappedPlace(addr, k, |data|);
    assert (addr + k) / PAGE_SIZE != addr / PAGE_SIZE;
  }

  /** The place of the page that byte k of a program ends up on, if it leaves the page. */
  function WrappedTo(addr: nat, k: nat): nat
    requires PAGE_SIZE - addr % PAGE_SIZE <= k
  {
    addr - addr % PAGE_SIZE + (k - (PAGE_SIZE - addr % PAGE_SIZE)) % PAGE_SIZE
  }

  lemma WrappedPlace(addr: nat, k: nat, n: nat)
    requires PAGE_SIZE - addr % PAGE_SIZE <= k < n <= k + PAGE_SIZE
    ensures var x := WrappedTo(addr, k);
      var offset := (x - addr) % PAGE_SIZE;
      && x / PAGE_SIZE == addr / PAGE_SIZE && x <= addr + k
      && offset < n && offset + (n - 1 - offset) / PAGE_SIZE * PAGE_SIZE == k
  {
    var x, q := WrappedTo(addr, k), (k - (PAGE_SIZE - addr % PAGE_SIZE)) / PAGE_SIZE;
    assert k == x - addr + PAGE_SIZE * (q + 1);
    LastForPlace(k, n);
  }

  /** Among n bytes, byte k of the last 256 is the last one for its cell. */
  lemma LastForPlace(k: nat, n: nat)
    requires k < n <= k + PAGE_SIZE
    ensures var offset := k % PAGE_SIZE;
      offset < n && offset + (n - 1 - offset) / PAGE_SIZE * PAGE_SIZE == k
  {
    var offset, q := k % PAGE_SIZE, k / PAGE_SIZE;
    assert n - 1 - offset == PAGE_SIZE * q + (n - 1 - k);
  }

  /** Programming can only clear bits: programming a cell twice never brings a 1 back. */
  lemma AndKeepsZeros(a: bv8, b: bv8)
    ensures (a & b) & a == a & b && (ERASED & b) == b
  {
  }

  // ------------------------------------------------------------------ the chip

  /** busyFor: for how many more samples of the status register BUSY will still read 1.
      protect: the other status bits (block protection and the like), as a number below 64. */
  datatype Chip = Chip(mem: Memory, wel: bool, busyFor: nat, protect: nat, mode: Interface)
  {
    predicate Valid() {
      |mem| == FLASH_SIZE && protect < 64
    }

    predicate Busy() {
      busyFor > 0
    }

    /** Status register 1: BUSY is bit 0, WEL bit 1. */
    function Status(): nat {
      protect * 4 + (if wel then 2 else 0) + (if Busy() then 1 else 0)
    }

    /** The status register will become, or is, all zero without any further command. */
    predicate Settles() {
      protect == 0 && (Busy() || !wel)
    }

    /** Program and erase instructions are obeyed. */
    predicate CanExecute() {
      wel && !Busy()
    }

    predicate Idle() {
      protect == 0 && !Busy() && !wel
    }

    /** One sample of the status register later: the write-enable latch falls with BUSY. */
    function Tick(): Chip {
      if busyFor == 0 then this
      else if busyFor == 1 then this.(busyFor := 0, wel := false)
      else this.(busyFor := busyFor - 1)
    }

    function Ticks(n: nat): Chip
      decreases n
    {
      if n == 0 then this else Tick().Ticks(n - 1)
    }

    /** An operation that keeps the chip busy for t samples. */
    function Started(m: Memory, t: nat): Chip {
      this.(mem := m, busyFor := t, wel := t > 0)
    }

    /** The chip after an instruction it could understand; a busy chip takes only a reset, and program
        and erase need the write-enable latch. */
    function Executed(i: Instr, t: nat): Chip {
      if i == ResetMemory then this.(wel := false, busyFor := 0, mode := Spi)
      else if Busy() then this
      else match i
        case WriteEnable => this.(wel := true)
        case PageProgram(addr, data) => if wel then Started(Programmed(mem, addr, data), t) else this
        case BlockErase(addr, size) =>
          if wel then Started(Erased(mem, addr - addr % BytesOf(size), BytesOf(size)), t) else this
        case ChipErase => if wel then Started(Erased(mem, 0, FLASH_SIZE), t) else this
        case EnterQpi => this.(mode := Qpi)
        case ExitQpi => this.(mode := Spi)
        case ResetEnable => this
    }
  }

  lemma {:induction false} TicksForm(c: Chip, n: nat)
    ensures c.Ticks(n) == if c.busyFor == 0 then c
      else if n >= c.busyFor then c.(busyFor := 0, wel := false)
      else c.(busyFor := c.busyFor - n)
    decreases n
  {
    if n > 0 {
      TicksForm(c.Tick(), n - 1);
    }
  }

  /** A write-enable latch that is set while no operation runs, as after a program instruction that
      never arrived, stays set however long one waits. */
  lemma LatchIsNotForgotten(c: Chip, t: nat, n: nat)
    requires c.Idle()
    ensures var e := c.Executed(WriteEnable, t); !e.Settles() && e.Ticks(n) == e
  {
    TicksForm(c.Executed(WriteEnable, t), n);
  }
}

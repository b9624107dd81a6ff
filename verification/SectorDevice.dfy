/**
  The FatFs disk driver (w25qxx_diskio.c): 4096 sectors of 4096 bytes over erase and program. It
  refines a plain array of sectors, although the medium underneath only clears bits. It reports
  RES_OK whatever happens below it, so the contracts say when that is deserved.
 */
module SectorDevice {
  import opened NorFlash
  import opened QspiHardware
  import opened W25Q128
  import opened QspiBsp

  const SECTOR_COUNT := 4096

  datatype DiskResult = ResOk | ResError

  // ------------------------------------------------------------------ the plain disk

  /** Memory with the bytes from addr on replaced. */
  function Stored(m: Memory, addr: nat, data: seq<bv8>): (r: Memory)
    requires addr + |data| <= |m|
    ensures |r| == |m|
  {
    m[..addr] + data + m[addr + |data|..]
  }

  function Sector(m: Memory, k: nat): seq<bv8>
    requires k < SECTOR_COUNT && |m| == FLASH_SIZE
  {
    m[k * SECTOR_SIZE..(k + 1) * SECTOR_SIZE]
  }

  /** The i-th sector of a caller's buffer. */
  function Chunk(buff: seq<bv8>, i: nat): seq<bv8>
    requires (i + 1) * SECTOR_SIZE <= |buff|
  {
    buff[i * SECTOR_SIZE..(i + 1) * SECTOR_SIZE]
  }

  /** Storing whole sectors replaces those and no other. */
  lemma StoredSectors(m: Memory, sector: nat, buff: seq<bv8>, count: nat, k: nat)
    requires |m| == FLASH_SIZE && |buff| == count * SECTOR_SIZE && sector + count <= SECTOR_COUNT && k < SECTOR_COUNT
    ensures Sector(Stored(m, sector * SECTOR_SIZE, buff), k)
         == if sector <= k < sector + count then Chunk(buff, k - sector) else Sector(m, k)
  {
    var s := Stored(m, sector * SECTOR_SIZE, buff);
    var lo := k * SECTOR_SIZE;
    forall y | lo <= y < lo + SECTOR_SIZE
      ensures s[y] == if sector <= k < sector + count then buff[y - sector * SECTOR_SIZE] else m[y]
    {
    }
  }

  lemma StoredReadsBack(m: Memory, addr: nat, data: seq<bv8>)
    requires addr + |data| <= |m|
    ensures Stored(m, addr, data)[addr..addr + |data|] == data
  {
  }

  lemma StoredTwice(m: Memory, addr: nat, a: seq<bv8>, b: seq<bv8>)
    requires addr + |a| + |b| <= |m|
    ensures Stored(Stored(m, addr, a), addr + |a|, b) == Stored(m, addr, a + b)
  {
  }

  /** Why erasing first makes an AND-only medium store: all ones AND d is d. */
  lemma EraseThenOverlay(m: Memory, addr: nat, d: seq<bv8>)
    requires addr + |d| <= |m|
    ensures Overlay(Erased(m, addr, |d|), addr, d) == Stored(m, addr, d)
  {
    forall x | 0 <= x < |m|
      ensures Overlay(Erased(m, addr, |d|), addr, d)[x] == Stored(m, addr, d)[x]
    {
      if addr <= x < addr + |d| {
        AndKeepsZeros(ERASED, d[x - addr]);
      }
    }
  }

  /** Nothing outside the range lo .. hi differs. */
  ghost predicate SameOutside(m: Memory, m': Memory, lo: nat, hi: nat) {
    |m| == |m'| && forall x :: 0 <= x < |m| && !(lo <= x < hi) ==> m[x] == m'[x]
  }

  lemma SameOutsideTwo(m: Memory, m1: Memory, m2: Memory, lo: nat, mid: nat, hi: nat)
    requires lo <= mid <= hi && SameOutside(m, m1, lo, mid) && SameOutside(m1, m2, mid, hi)
    ensures SameOutside(m, m2, lo, hi)
  {
  }

  /** Memory with the first i sectors of a buffer stored. */
  function StoredChunks(m: Memory, base: nat, buff: seq<bv8>, i: nat): (r: Memory)
    requires i * SECTOR_SIZE <= |buff| && base + |buff| <= |m|
    ensures |r| == |m|
  {
    Stored(m, base, buff[..i * SECTOR_SIZE])
  }

  lemma NextChunkStored(m: Memory, base: nat, buff: seq<bv8>, i: nat)
    requires (i + 1) * SECTOR_SIZE <= |buff| && base + |buff| <= |m|
    ensures Stored(StoredChunks(m, base, buff, i), base + i * SECTOR_SIZE, Chunk(buff, i))
         == StoredChunks(m, base, buff, i + 1)
  {
    StoredTwice(m, base, buff[..i * SECTOR_SIZE], Chunk(buff, i));
    assert buff[..i * SECTOR_SIZE] + Chunk(buff, i) == buff[..(i + 1) * SECTOR_SIZE];
  }

  lemma AllChunksStored(m: Memory, base: nat, buff: seq<bv8>, count: nat)
    requires count * SECTOR_SIZE == |buff| && base + |buff| <= |m|
    ensures StoredChunks(m, base, buff, 0) == m && StoredChunks(m, base, buff, count) == Stored(m, base, buff)
  {
    assert buff[..|buff|] == buff;
  }

  // ------------------------------------------------------------------ the BYTE loop counter

  /** The counter of the loop in w25qxx_write after n rounds: it is a BYTE. */
  function RoundCounter(n: nat): (i: nat)
    ensures i < 0x100
  {
    if n == 0 then 0 else (RoundCounter(n - 1) + 1) % 0x100
  }

  /** The loop ends, after exactly count rounds, for count up to 255; for more it never does. */
  lemma {:induction false} WriteLoopEndsIff(count: nat, n: nat)
    ensures count <= 0xFF && n <= count ==> RoundCounter(n) == n
    ensures count > 0xFF ==> RoundCounter(n) < count
  {
    if n > 0 {
      WriteLoopEndsIff(count, n - 1);
    }
  }

  // ------------------------------------------------------------------ the driver

  class Disk {
    const bsp: Bsp

    constructor (bsp: Bsp)
      ensures this.bsp == bsp
    {
      this.bsp := bsp;
    }

    ghost predicate Ready()
      reads this, bsp, bsp.hw
    {
      bsp.hw.Valid() && bsp.Synced()
    }

    /** Nothing went wrong below, and the status register was going to settle at zero. */
    twostate predicate Deserved()
      reads bsp, bsp.hw
    {
      bsp.NoExcuse() && old(bsp.hw.chip).Settles()
    }

    /** w25qxx_initialize looks only at the identification bytes, not at what Init and ConfigFlash
        report. On a first start with working hardware whose status settles (or whose mode is QPI, so
        that the reset in QPI mode clears the latch) it leaves a device that can store. */
    method Initialize() returns (res: DiskResult)
      requires bsp.Sane()
      modifies bsp, bsp.hw
      ensures bsp.hw.chip.mem == old(bsp.hw.chip).mem && bsp.hw.log == old(bsp.hw.log)
      ensures bsp.Sane() && (old(bsp.Valid()) && !old(bsp.hw.chip).Busy() ==> bsp.Valid())
      ensures old(bsp.access) == AccessNone && old(bsp.ResetWorks()) && bsp.hw.prompt
              && old(bsp.hw.chip).busyFor <= PollReach(BUSY_CHECK_TIME, BUSY_TIMEOUT)
              && bsp.hw.faults == old(bsp.hw.faults) ==>
        && res == ResOk && bsp.Valid() && Ready() && bsp.access == AccessIndirect
        && bsp.hw.chip.mode == Qpi && bsp.hw.chip.Idle() && bsp.hw.hal == QspiHardware.Ready
      // It reports an error only where the chip could not be asked, or did not answer.
      ensures res == ResError ==>
        || bsp.hw.faults > old(bsp.hw.faults) || bsp.hw.hal != QspiHardware.Ready
        || !bsp.Synced() || bsp.hw.chip.Busy()
    {
      var init := bsp.Init();
      var config := bsp.ConfigFlash(Qpi);
      var ok, id := bsp.hw.ReceiveId(bsp.interfaceMode);
      return if id[0] == 0xEF && id[1] == 0x40 && id[2] == 0x18 then ResOk else ResError;
    }

    /** Erase, then program. Neither return value is looked at. */
    method WriteSector(data: seq<bv8>, sector: nat)
      requires Ready() && |data| == SECTOR_SIZE && sector < SECTOR_COUNT
      modifies bsp.hw
      ensures Ready() && bsp.hw.hal == old(bsp.hw.hal) && bsp.hw.faults >= old(bsp.hw.faults)
      ensures SameOutside(old(bsp.hw.chip).mem, bsp.hw.chip.mem, sector * SECTOR_SIZE, (sector + 1) * SECTOR_SIZE)
      ensures Deserved() ==>
        bsp.hw.chip.Idle() && bsp.hw.chip.mem == Stored(old(bsp.hw.chip).mem, sector * SECTOR_SIZE, data)
      ensures !old(bsp.hw.chip).Settles() ==>
        bsp.hw.chip.mem == old(bsp.hw.chip).mem && !bsp.hw.chip.Settles()
    {
      var addr := sector * SECTOR_SIZE;
      assert addr % BytesOf(Erase4K) == 0;
      ghost var m := bsp.hw.chip.mem;
      var erase := bsp.EraseBlock(addr, Erase4K);
      var write := bsp.Write(data, addr);
      EraseThenOverlay(m, addr, data);
    }

    /** Round i of a write, m being the memory before the first one. */
    method WriteRound(buff: seq<bv8>, i: nat, sector: nat, current: nat, ghost m: Memory)
      requires Ready() && |m| == FLASH_SIZE && current == sector + i
      requires (i + 1) * SECTOR_SIZE <= |buff| && sector * SECTOR_SIZE + |buff| <= FLASH_SIZE
      requires SameOutside(m, bsp.hw.chip.mem, sector * SECTOR_SIZE, current * SECTOR_SIZE)
      modifies bsp.hw
      ensures Ready() && bsp.hw.hal == old(bsp.hw.hal) && bsp.hw.faults >= old(bsp.hw.faults)
      ensures SameOutside(m, bsp.hw.chip.mem, sector * SECTOR_SIZE, (current + 1) * SECTOR_SIZE)
      ensures Deserved() ==> bsp.hw.chip.Idle()
      ensures Deserved() && old(bsp.hw.chip).mem == StoredChunks(m, sector * SECTOR_SIZE, buff, i) ==>
        bsp.hw.chip.mem == StoredChunks(m, sector * SECTOR_SIZE, buff, i + 1)
      ensures !old(bsp.hw.chip).Settles() ==>
        bsp.hw.chip.mem == old(bsp.hw.chip).mem && !bsp.hw.chip.Settles()
    {
      ghost var before, base := bsp.hw.chip.mem, sector * SECTOR_SIZE;
      NextChunkStored(m, base, buff, i);
      WriteSector(Chunk(buff, i), current);
      SameOutsideTwo(m, before, bsp.hw.chip.mem, base, current * SECTOR_SIZE, (current + 1) * SECTOR_SIZE);
    }

    method Write(buff: seq<bv8>, sector: nat, count: nat) returns (res: DiskResult)
      requires Ready() && count <= 0xFF
      requires sector + count <= SECTOR_COUNT && |buff| == count * SECTOR_SIZE
      modifies bsp.hw
      ensures res == ResOk
      ensures Ready() && bsp.hw.hal == old(bsp.hw.hal) && bsp.hw.faults >= old(bsp.hw.faults)
      // Even a write that fails leaves every other sector alone.
      ensures SameOutside(old(bsp.hw.chip).mem, bsp.hw.chip.mem, sector * SECTOR_SIZE, (sector + count) * SECTOR_SIZE)
      // With nothing else to blame, it stores the buffer exactly if the status register settles at zero.
      ensures Deserved() ==> bsp.hw.chip.mem == Stored(old(bsp.hw.chip).mem, sector * SECTOR_SIZE, buff)
      ensures Deserved() ==> if count == 0 then bsp.hw.chip == old(bsp.hw.chip) else bsp.hw.chip.Idle()
      ensures !old(bsp.hw.chip).Settles() ==>
        bsp.hw.chip.mem == old(bsp.hw.chip).mem && !bsp.hw.chip.Settles()
    {
      res := ResError;
      var i := 0;
      var current := sector;
      ghost var m := bsp.hw.chip.mem;
      ghost var base := sector * SECTOR_SIZE;
      AllChunksStored(m, base, buff, count);
      while i < count
        invariant i <= count && current == sector + i
        invariant Ready() && bsp.hw.hal == old(bsp.hw.hal) && bsp.hw.faults >= old(bsp.hw.faults)
        invariant SameOutside(m, bsp.hw.chip.mem, base, (sector + i) * SECTOR_SIZE)
        invariant Deserved() ==> bsp.hw.chip.mem == StoredChunks(m, base, buff, i)
        invariant Deserved() ==> if i == 0 then bsp.hw.chip == old(bsp.hw.chip) else bsp.hw.chip.Idle()
        invariant !old(bsp.hw.chip).Settles() ==> bsp.hw.chip.mem == m && !bsp.hw.chip.Settles()
        decreases count - i
      {
        assert (i + 1) * SECTOR_SIZE <= |buff|;
        WriteRound(buff, i, sector, current, m);
        current := current + 1;
        assert (i + 1) % 0x100 == i + 1;
        i := (i + 1) % 0x100;
      }
      res := ResOk;
    }

    /** Reading cannot be refused either; a call that fails leaves its part of the buffer as it was. */
    method Read(buff: array<bv8>, sector: nat, count: nat) returns (res: DiskResult)
      requires Ready() && sector + count <= SECTOR_COUNT && buff.Length == count * SECTOR_SIZE
      modifies bsp.hw`faults, buff
      ensures res == ResOk
      ensures Ready() && bsp.hw.chip == old(bsp.hw.chip)
      ensures bsp.hw.log == old(bsp.hw.log) && bsp.hw.faults >= old(bsp.hw.faults)
      ensures bsp.hw.faults == old(bsp.hw.faults) && bsp.hw.hal == QspiHardware.Ready && !bsp.hw.chip.Busy() ==>
        buff[..] == bsp.hw.chip.mem[sector * SECTOR_SIZE..(sector + count) * SECTOR_SIZE]
    {
      res := ResError;
      ghost var m := bsp.hw.chip.mem;
      ghost var base := sector * SECTOR_SIZE;
      var left, current, offset := count, sector, 0;
      while left > 0
        invariant 0 <= left <= count && current + left == sector + count && offset == (count - left) * SECTOR_SIZE
        invariant Ready() && bsp.hw.chip == old(bsp.hw.chip)
        invariant bsp.hw.log == old(bsp.hw.log) && bsp.hw.faults >= old(bsp.hw.faults)
        invariant bsp.hw.faults == old(bsp.hw.faults) && bsp.hw.hal == QspiHardware.Ready && !bsp.hw.chip.Busy() ==>
          buff[..offset] == m[base..base + offset]
      {
        var ret, data := bsp.Read(current * SECTOR_SIZE, SECTOR_SIZE);
        if ret == ErrorNone {
          forall x | 0 <= x < SECTOR_SIZE {
            buff[offset + x] := data[x];
          }
        }
        ghost var was := offset;
        left, current, offset := left - 1, current + 1, offset + SECTOR_SIZE;
        assert ret == ErrorNone ==> buff[..offset] == buff[..was] + data;
        assert m[base..base + offset] == m[base..base + was] + m[base + was..base + offset];
      }
      assert buff[..] == buff[..offset];
      res := ResOk;
    }

    /** The refinement seen from above: on working hardware what is written is what is read. */
    method WriteThenRead(data: seq<bv8>, buff: array<bv8>, sector: nat, count: nat)
      requires Ready() && 0 < count <= 0xFF && sector + count <= SECTOR_COUNT
      requires |data| == buff.Length == count * SECTOR_SIZE
      modifies bsp.hw, buff
      ensures Ready()
      ensures Deserved() ==>
        && buff[..] == data
        && forall k :: 0 <= k < SECTOR_COUNT && !(sector <= k < sector + count) ==>
             Sector(bsp.hw.chip.mem, k) == Sector(old(bsp.hw.chip).mem, k)
    {
      ghost var m := bsp.hw.chip.mem;
      var written := Write(data, sector, count);
      var read := Read(buff, sector, count);
      if Deserved() {
        StoredReadsBack(m, sector * SECTOR_SIZE, data);
        forall k | 0 <= k < SECTOR_COUNT
          ensures !(sector <= k < sector + count) ==> Sector(bsp.hw.chip.mem, k) == Sector(m, k)
        {
          StoredSectors(m, sector, data, count, k);
        }
      }
    }
  }
}

/**
  The page splitter of BSP_QSPI_Write as a function: which page-program calls a write is cut into,
  and why their combined effect is the plain overlay that the caller asked for.
 */
module PageSplit {
  import opened NorFlash

  datatype Call = Call(addr: nat, data: seq<bv8>)

  /** The bytes that still fit the page of addr, or fewer. */
  function ChunkSize(addr: nat, size: nat): (n: nat)
    ensures n <= size && addr % PAGE_SIZE + n <= PAGE_SIZE
    ensures size > 0 ==> n > 0
    ensures n < size ==> (addr + n) % PAGE_SIZE == 0
  {
    if PAGE_SIZE - addr % PAGE_SIZE > size then size else PAGE_SIZE - addr % PAGE_SIZE
  }

  function PageCalls(addr: nat, data: seq<bv8>): seq<Call>
    decreases |data|
  {
    if data == [] then []
    else
      var n := ChunkSize(addr, |data|);
      [Call(addr, data[..n])] + PageCalls(addr + n, data[n..])
  }

  function Applied(m: Memory, calls: seq<Call>): (r: Memory)
    ensures |r| == |m|
    decreases |calls|
  {
    if calls == [] then m else Applied(Programmed(m, calls[0].addr, calls[0].data), calls[1..])
  }

  /** The data of the calls, one after the other. */
  function Joined(calls: seq<Call>): seq<bv8> {
    if calls == [] then [] else calls[0].data + Joined(calls[1..])
  }

  /** Every call starts where the one before it ended. */
  ghost predicate Contiguous(addr: nat, calls: seq<Call>)
    decreases |calls|
  {
    calls != [] ==> calls[0].addr == addr && Contiguous(addr + |calls[0].data|, calls[1..])
  }

  /** At least a byte, and from c.addr on no further than to the end of the page. */
  predicate FitsPage(c: Call) {
    1 <= |c.data| && c.addr % PAGE_SIZE + |c.data| <= PAGE_SIZE
  }

  /** The calls tile the target exactly once, in order, and each stays in one page. */
  lemma {:induction false} CallsTile(addr: nat, data: seq<bv8>)
    ensures Contiguous(addr, PageCalls(addr, data))
    ensures Joined(PageCalls(addr, data)) == data
    ensures forall i :: 0 <= i < |PageCalls(addr, data)| ==> FitsPage(PageCalls(addr, data)[i])
    decreases |data|
  {
    if data != [] {
      var n := ChunkSize(addr, |data|);
      CallsTile(addr + n, data[n..]);
      assert data[..n] + data[n..] == data;
    }
  }

  /** One call for each page that is touched. */
  lemma {:induction false} CallCount(addr: nat, data: seq<bv8>)
    requires data != []
    ensures |PageCalls(addr, data)| == (addr + |data| - 1) / PAGE_SIZE - addr / PAGE_SIZE + 1
    decreases |data|
  {
    var n := ChunkSize(addr, |data|);
    assert PageCalls(addr, data)[1..] == PageCalls(addr + n, data[n..]);
    if n < |data| {
      CallCount(addr + n, data[n..]);
      assert (addr + n) / PAGE_SIZE == addr / PAGE_SIZE + 1;
    } else {
      assert (addr + n - 1) / PAGE_SIZE == addr / PAGE_SIZE;
    }
  }

  lemma OverlayTwice(m: Memory, addr: nat, a: seq<bv8>, b: seq<bv8>)
    ensures Overlay(Overlay(m, addr, a), addr + |a|, b) == Overlay(m, addr, a + b)
  {
  }

  /** Calls that tile a range, each inside a page, have the effect of one overlay. */
  lemma {:induction false} TilesOverlay(m: Memory, addr: nat, calls: seq<Call>)
    requires Contiguous(addr, calls) && forall i :: 0 <= i < |calls| ==> FitsPage(calls[i])
    ensures Applied(m, calls) == Overlay(m, addr, Joined(calls))
    decreases |calls|
  {
    if calls == [] {
      assert Overlay(m, addr, []) == m;
    } else {
      var first := calls[0].data;
      ProgramInPage(m, addr, first);
      TilesOverlay(Overlay(m, addr, first), addr + |first|, calls[1..]);
      OverlayTwice(m, addr, first, Joined(calls[1..]));
    }
  }

  lemma {:induction false} PrefixTiles(addr: nat, calls: seq<Call>, j: nat)
    requires j <= |calls| && Contiguous(addr, calls)
    ensures Contiguous(addr, calls[..j]) && Joined(calls[..j]) <= Joined(calls)
    decreases j
  {
    if j > 0 {
      PrefixTiles(addr + |calls[0].data|, calls[1..], j - 1);
      assert calls[..j][1..] == calls[1..][..j - 1];
    }
  }

  /** The splitter refines the plain write: any first part of the calls has ANDed exactly a first part
      of the data into the target range and touched nothing else. */
  lemma PrefixEffect(m: Memory, addr: nat, data: seq<bv8>, j: nat)
    requires j <= |PageCalls(addr, data)|
    ensures Joined(PageCalls(addr, data)[..j]) <= data
    ensures Applied(m, PageCalls(addr, data)[..j]) == Overlay(m, addr, Joined(PageCalls(addr, data)[..j]))
  {
    var calls := PageCalls(addr, data);
    CallsTile(addr, data);
    PrefixTiles(addr, calls, j);
    TilesOverlay(m, addr, calls[..j]);
  }

  lemma WholeEffect(m: Memory, addr: nat, data: seq<bv8>)
    ensures Applied(m, PageCalls(addr, data)) == Overlay(m, addr, data)
  {
    var calls := PageCalls(addr, data);
    assert calls[..|calls|] == calls;
    PrefixEffect(m, addr, data, |calls|);
    CallsTile(addr, data);
  }

  lemma {:induction false} AppliedAppend(m: Memory, calls: seq<Call>, c: Call)
    ensures Applied(m, calls + [c]) == Programmed(Applied(m, calls), c.addr, c.data)
    decreases |calls|
  {
    if calls == [] {
      assert [c][1..] == [];
    } else {
      assert (calls + [c])[1..] == calls[1..] + [c];
      AppliedAppend(Programmed(m, calls[0].addr, calls[0].data), calls[1..], c);
    }
  }
}

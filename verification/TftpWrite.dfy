/**
  The write direction of the TFTP server (wrq_recv_callback), and the whole system it is part of: an
  RFC 1350 lock-step sender, the server, and a network that drops, duplicates, delays and reorders.
  Packets put on the network stay there: delivering one again is a duplicate or a retransmission,
  never delivering it is a loss. The request itself may arrive again as well; it then opens the one
  global file object, file_CR, a second time.
 */
module TftpWrite {
  import opened Bytes
  import opened TftpPackets

  // ------------------------------------------------------------------ the server

  /** What one transfer keeps: args->block, args->tot_bytes, the file and whether the port is open. */
  datatype Server = Server(block: int, totBytes: int, file: seq<byte>, open: bool)

  const SERVER_START := Server(0, 0, [], true)

  /** The packet is the next one of the transfer: the 16-bit field is compared with an int. */
  predicate IsNext(s: Server, p: Packet) {
    ExtractBlock(p) == s.block + 1
  }

  function Receive(s: Server, p: Packet): Server {
    Server(if IsNext(s, p) then s.block + 1 else s.block,
           if IsNext(s, p) then s.totBytes + |Payload(p)| else s.totBytes,
           if IsNext(s, p) then s.file + Payload(p) else s.file,
           |p| >= PACKET_LEN_MAX)
  }

  /** How many of the packets have the number that is due when they arrive: 1, then 2, ... */
  function InTurn(pkts: seq<Packet>): (n: nat)
    ensures n <= |pkts|
  {
    if pkts == [] then 0
    else
      var n := InTurn(pkts[..|pkts| - 1]);
      if ExtractBlock(pkts[|pkts| - 1]) == n + 1 then n + 1 else n
  }

  /** What those carry behind their four header bytes, one after the other. */
  function DataInTurn(pkts: seq<Packet>): seq<byte> {
    if pkts == [] then []
    else
      var before, p := pkts[..|pkts| - 1], pkts[|pkts| - 1];
      if ExtractBlock(p) == InTurn(before) + 1 then DataInTurn(before) + p[4..] else DataInTurn(before)
  }

  predicate AllLong(pkts: seq<Packet>) {
    forall i :: 0 <= i < |pkts| ==> |pkts[i]| >= 516
  }

  /** After each packet, the ACK of the count so far. */
  function AcksInTurn(pkts: seq<Packet>): (acks: seq<Packet>)
    ensures |acks| == |pkts|
  {
    if pkts == [] then [] else AcksInTurn(pkts[..|pkts| - 1]) + [AckPacket(InTurn(pkts))]
  }

  /** Where these packets, all of which found the port open, have led: only the last one can be short,
      and then the port is closed; the block counts those in turn, the file is what they carried, and
      each has been answered with the count of its moment. */
  ghost predicate Followed(s: Server, pkts: seq<Packet>, replies: seq<Packet>) {
    && s.block == InTurn(pkts) && s.file == DataInTurn(pkts) && s.totBytes == |s.file|
    && replies == AcksInTurn(pkts)
    && (s.open <==> AllLong(pkts))
    && (pkts != [] ==> AllLong(pkts[..|pkts| - 1]))
  }

  lemma FollowedOne(s: Server, before: seq<Packet>, replies: seq<Packet>, p: Packet)
    requires Followed(s, before, replies) && s.open
    ensures var t := Receive(s, p); Followed(t, before + [p], replies + [AckPacket(t.block)])
  {
    assert (before + [p])[..|before|] == before;
    LongAppend(before, p);
  }

  lemma LongAppend(before: seq<Packet>, p: Packet)
    ensures AllLong(before + [p]) <==> AllLong(before) && |p| >= 516
  {
    if AllLong(before + [p]) {
      assert (before + [p])[|before|] == p;
      forall i | 0 <= i < |before|
        ensures |before[i]| >= 516
      {
        assert (before + [p])[i] == before[i];
      }
    }
  }

  /** pkts is what the server looks at for each datagram. */
  ghost predicate LooksAt(datagrams: seq<seq<byte>>, behind: seq<seq<byte>>, pkts: seq<Packet>) {
    && |datagrams| == |behind| == |pkts|
    && forall i :: 0 <= i < |pkts| ==>
         |datagrams[i]| + |behind[i]| >= 4 && pkts[i] == Seen(datagrams[i], behind[i])
  }

  class WriteTransfer {
    var block: int
    var totBytes: int
    var file: seq<byte>
    var open: bool

    function View(): Server
      reads this
    {
      Server(block, totBytes, file, open)
    }

    /** tftp_process_write: a fresh file and a block number of 0, acknowledged at once. */
    constructor ()
      ensures View() == SERVER_START
    {
      block, totBytes, file, open := 0, 0, [], true;
    }

    /** f_write on file_CR, whose pointer stays at the end of the file: all bytes are taken. */
    method FileWrite(data: seq<byte>) returns (n: nat)
      modifies this`file
      ensures file == old(file) + data && n == |data|
    {
      file := file + data;
      n := |data|;
    }

    /** tftp_process_write for a request that arrives again: file_CR is created anew, for all transfers,
        and block 0 is acknowledged from a port of its own. */
    method ProcessWriteAgain() returns (reply: Packet)
      modifies this`file
      ensures View() == old(View()).(file := []) && reply == AckPacket(0)
    {
      file := [];
      reply := SendAckPacket(0);
    }

    /** A datagram of any length; the number of one without a whole header comes from what is behind it. */
    method WrqRecvCallback(datagram: seq<byte>, behind: seq<byte>) returns (reply: Packet)
      requires open && |datagram| + |behind| >= HEADER_LEN
      modifies this
      ensures View() == Receive(old(View()), Seen(datagram, behind))
      ensures reply == AckPacket(block)
    {
      var p := Seen(datagram, behind);
      if |datagram| > HEADER_LEN && ExtractBlock(p) == block + 1 {
        var n := FileWrite(datagram[HEADER_LEN..]);
        block := block + 1;
        totBytes := totBytes + (|datagram| - HEADER_LEN);
      } else if ExtractBlock(p) == block + 1 {
        block := block + 1;
        assert file == old(file) + Payload(p);
      }
      reply := SendAckPacket(block);
      if |datagram| < PACKET_LEN_MAX {
        open := false;
      }
    }

    /** Whatever arrives at the port of a new transfer, in any order and of any length (the first `taken`
        datagrams find the port open): the port stays open exactly as long as no datagram was shorter than
        516 bytes, the block counts those that were in turn, the file is what they carried, and every
        reply acknowledges the count of its moment. */
    method ReceiveAll(datagrams: seq<seq<byte>>, behind: seq<seq<byte>>, ghost pkts: seq<Packet>)
      returns (replies: seq<Packet>, taken: nat)
      requires View() == SERVER_START && LooksAt(datagrams, behind, pkts)
      modifies this
      ensures taken <= |pkts| && (open ==> taken == |pkts|)
      ensures Followed(View(), pkts[..taken], replies)
    {
      replies, taken := [], 0;
      ghost var before: seq<Packet> := [];
      while taken < |datagrams| && open
        invariant taken <= |pkts| && before == pkts[..taken]
        invariant Followed(View(), before, replies)
      {
        replies := ReceiveOne(datagrams[taken], behind[taken], replies, before, pkts[taken]);
        before := before + [pkts[taken]];
        taken := taken + 1;
      }
    }

    method ReceiveOne(datagram: seq<byte>, behind: seq<byte>, replies: seq<Packet>, ghost before: seq<Packet>,
                      ghost p: Packet)
      returns (all: seq<Packet>)
      requires open && Followed(View(), before, replies)
      requires |datagram| + |behind| >= HEADER_LEN && p == Seen(datagram, behind)
      modifies this
      ensures Followed(View(), before + [p], all)
    {
      FollowedOne(View(), before, replies, p);
      var reply := WrqRecvCallback(datagram, behind);
      all := replies + [reply];
    }
  }

  // ------------------------------------------------------------------ the sender

  /** RFC 1350 section 2: blocks of 512 bytes, ended by the first one that is shorter. */
  function Blocks(data: seq<byte>): nat {
    |data| / DATA_LEN_MAX + 1
  }

  /** The bytes the first k blocks carry. */
  function UpTo(data: seq<byte>, k: nat): seq<byte> {
    data[..Min(k * DATA_LEN_MAX, |data|)]
  }

  function BlockData(data: seq<byte>, k: nat): seq<byte>
    requires 1 <= k <= Blocks(data)
  {
    data[(k - 1) * DATA_LEN_MAX..Min(k * DATA_LEN_MAX, |data|)]
  }

  /** The k-th DATA packet of the transfer; its number is k modulo 65536. */
  function BlockPacket(data: seq<byte>, k: nat): Packet
    requires 1 <= k <= Blocks(data)
  {
    DataPacket(k, BlockData(data, k))
  }

  lemma BlocksAddUp(data: seq<byte>, k: nat)
    requires 1 <= k <= Blocks(data)
    ensures UpTo(data, k - 1) + BlockData(data, k) == UpTo(data, k)
    ensures |BlockData(data, k)| <= DATA_LEN_MAX
    ensures |BlockData(data, k)| < DATA_LEN_MAX <==> k == Blocks(data)
    ensures UpTo(data, Blocks(data)) == data
  {
  }

  // ------------------------------------------------------------------ the system

  /** The sender has block `cur` (0: the request) in flight; `done` once the last one is acknowledged.
      base is the block the server had reached when the latest request was processed. */
  datatype System =
    System(cur: nat, done: bool, server: Server, toServer: set<Packet>, toSender: set<Packet>, base: nat)

  /** RequestAgain: the write request arrives once more. It gets a port of its own, which the sender
      does not talk to (RFC 1350 section 4), but the file is created anew under the first transfer. */
  datatype Action = ToServer(p: Packet) | ToSender(p: Packet) | RequestAgain

  /** The first request has been processed. */
  const START := System(0, false, SERVER_START, {}, {AckPacket(0)}, 0)

  function Next(data: seq<byte>, s: System, a: Action): System {
    match a
    case ToServer(p) =>
      if p in s.toServer && s.server.open then
        var server := Receive(s.server, p);
        s.(server := server, toSender := s.toSender + {AckPacket(server.block)})
      else s
    case ToSender(p) =>
      if p in s.toSender && !s.done && IsCorrectAck(p, Low16(s.cur)) then
        if s.cur >= Blocks(data) then s.(done := true)
        else s.(cur := s.cur + 1, toServer := s.toServer + {BlockPacket(data, s.cur + 1)})
      else s
    case RequestAgain =>
      s.(server := s.server.(file := []), base := if s.server.block < 0 then 0 else s.server.block)
  }

  function Exec(data: seq<byte>, acts: seq<Action>): System {
    if acts == [] then START else Next(data, Exec(data, acts[..|acts| - 1]), acts[|acts| - 1])
  }

  /** The last block number that fits the 16-bit field, and the bytes that many full blocks hold. */
  const LAST_BLOCK := 0xFFFF
  const LIMIT := LAST_BLOCK * DATA_LEN_MAX

  ghost predicate DataInFlight(data: seq<byte>, s: System) {
    forall p :: p in s.toServer ==> exists k: nat :: 1 <= k <= s.cur && k <= Blocks(data) && p == BlockPacket(data, k)
  }

  ghost predicate AcksInFlight(s: System) {
    forall p :: p in s.toSender ==> exists b: nat :: b <= s.server.block && p == AckPacket(b)
  }

  /** What every step of the system keeps. */
  ghost predicate Inv(data: seq<byte>, s: System) {
    && var m := s.server.block;
    && 0 <= m <= LAST_BLOCK && m <= s.cur <= Blocks(data)
    && (m < LAST_BLOCK ==> s.cur <= m + 1)
    && s.base <= m && UpTo(data, s.base) + s.server.file == UpTo(data, m)
    && s.server.totBytes == |UpTo(data, m)|
    && (s.server.open ==> m < Blocks(data))
    && (!s.server.open || s.done ==> s.cur == Blocks(data) && (m == Blocks(data) || m == LAST_BLOCK))
    && DataInFlight(data, s)
    && AcksInFlight(s)
  }

  /** A packet of the transfer that is the next one by its 16-bit number is the next one. */
  lemma NextIsNext(data: seq<byte>, s: System, k: nat)
    requires Inv(data, s) && 1 <= k <= s.cur && IsNext(s.server, BlockPacket(data, k))
    ensures k == s.server.block + 1
  {
    DataRoundTrip(k, BlockData(data, k));
  }

  lemma ServerFileGrows(data: seq<byte>, base: nat, file: seq<byte>, k: nat)
    requires 1 <= k <= Blocks(data) && UpTo(data, base) + file == UpTo(data, k - 1)
    ensures UpTo(data, base) + (file + BlockData(data, k)) == UpTo(data, k)
  {
    BlocksAddUp(data, k);
    assert UpTo(data, base) + (file + BlockData(data, k)) == (UpTo(data, base) + file) + BlockData(data, k);
  }

  lemma AcksGrow(s: System, t: System)
    requires AcksInFlight(s) && 0 <= s.server.block <= t.server.block
    requires t.toSender == s.toSender + {AckPacket(t.server.block)}
    ensures AcksInFlight(t)
  {
    forall q | q in t.toSender
      ensures exists b: nat :: b <= t.server.block && q == AckPacket(b)
    {
      if q in s.toSender {
        var b: nat :| b <= s.server.block && q == AckPacket(b);
        assert b <= t.server.block;
      }
    }
  }

  /** The packet is the next block. */
  lemma NextBlockKeepsInv(data: seq<byte>, s: System, k: nat)
    requires Inv(data, s) && 1 <= k <= s.cur && BlockPacket(data, k) in s.toServer && s.server.open
    requires IsNext(s.server, BlockPacket(data, k))
    ensures Inv(data, Next(data, s, ToServer(BlockPacket(data, k))))
  {
    var t := Next(data, s, ToServer(BlockPacket(data, k)));
    NextIsNext(data, s, k);
    DataRoundTrip(k, BlockData(data, k));
    BlocksAddUp(data, k);
    AcksGrow(s, t);
    ServerFileGrows(data, s.base, s.server.file, k);
  }

  /** It is an earlier one. */
  lemma OldBlockKeepsInv(data: seq<byte>, s: System, k: nat)
    requires Inv(data, s) && 1 <= k <= s.cur && BlockPacket(data, k) in s.toServer && s.server.open
    requires !IsNext(s.server, BlockPacket(data, k))
    ensures Inv(data, Next(data, s, ToServer(BlockPacket(data, k))))
  {
    DataRoundTrip(k, BlockData(data, k));
    BlocksAddUp(data, k);
    AcksGrow(s, Next(data, s, ToServer(BlockPacket(data, k))));
  }

  lemma ServerStepKeepsInv(data: seq<byte>, s: System, p: Packet)
    requires Inv(data, s) && p in s.toServer && s.server.open
    ensures Inv(data, Next(data, s, ToServer(p)))
  {
    var k: nat :| 1 <= k <= s.cur && k <= Blocks(data) && p == BlockPacket(data, k);
    if IsNext(s.server, p) {
      NextBlockKeepsInv(data, s, k);
    } else {
      OldBlockKeepsInv(data, s, k);
    }
  }

  lemma SenderStepKeepsInv(data: seq<byte>, s: System, p: Packet)
    requires Inv(data, s) && p in s.toSender
    ensures Inv(data, Next(data, s, ToSender(p)))
  {
    var t := Next(data, s, ToSender(p));
    var b: nat :| b <= s.server.block && p == AckPacket(b);
    AckRoundTrip(b, Low16(s.cur));
    forall q | q in t.toServer
      ensures exists k: nat :: 1 <= k <= t.cur && k <= Blocks(data) && q == BlockPacket(data, k)
    {
      if q in s.toServer {
        var k: nat :| 1 <= k <= s.cur && k <= Blocks(data) && q == BlockPacket(data, k);
        assert k <= t.cur;
      } else {
        assert q == BlockPacket(data, t.cur);
      }
    }
    assert t.toSender == s.toSender && t.server == s.server;
  }

  lemma {:induction false} AlwaysInv(data: seq<byte>, acts: seq<Action>)
    ensures Inv(data, Exec(data, acts))
  {
    if acts == [] {
      assert AckPacket(0) in START.toSender;
    } else {
      var before := acts[..|acts| - 1];
      AlwaysInv(data, before);
      match acts[|acts| - 1]
      case ToServer(p) =>
        if p in Exec(data, before).toServer && Exec(data, before).server.open {
          ServerStepKeepsInv(data, Exec(data, before), p);
        }
      case ToSender(p) =>
        if p in Exec(data, before).toSender {
          SenderStepKeepsInv(data, Exec(data, before), p);
        }
      case RequestAgain =>
    }
  }

  // ------------------------------------------------------------------ theorems

  /** Some request was processed in mid-transfer, after the first block. */
  ghost predicate RequestedLate(data: seq<byte>, acts: seq<Action>) {
    acts != [] &&
    var before := acts[..|acts| - 1];
    RequestedLate(data, before) || (acts[|acts| - 1] == RequestAgain && Exec(data, before).server.block > 0)
  }

  lemma {:induction false} RequestedLateIff(data: seq<byte>, acts: seq<Action>)
    ensures RequestedLate(data, acts) <==> Exec(data, acts).base > 0
  {
    if acts != [] {
      RequestedLateIff(data, acts[..|acts| - 1]);
      AlwaysInv(data, acts[..|acts| - 1]);
    }
  }

  /** Safety, for data of every size and every behaviour of the network: what is in the server's file
      is the data from the block reached at the latest request to the block reached now. As long as no
      request is processed in mid-transfer, that is a prefix, in whole blocks, and tot_bytes counts it. */
  lemma FileIsAlwaysAPrefix(data: seq<byte>, acts: seq<Action>)
    ensures var s := Exec(data, acts);
      && 0 <= s.base <= s.server.block
      && UpTo(data, s.base) + s.server.file == UpTo(data, s.server.block)
      && (!RequestedLate(data, acts) ==>
            && s.server.file <= data && s.server.file == UpTo(data, s.server.block)
            && s.server.totBytes == |s.server.file|)
  {
    AlwaysInv(data, acts);
    RequestedLateIff(data, acts);
    var s := Exec(data, acts);
    if s.base == 0 {
      assert UpTo(data, 0) + s.server.file == s.server.file;
    }
  }

  /** When the server closes the transfer, its file is complete exactly if no request came after the
      first block (or there is no data), and the data has at most 65535 full blocks: block 65536 is
      never accepted, because an int is compared with 16 bits. */
  lemma ClosedMeansCompleteIff(data: seq<byte>, acts: seq<Action>)
    requires !Exec(data, acts).server.open
    ensures Exec(data, acts).server.file == data <==> (!RequestedLate(data, acts) || data == []) && |data| <= LIMIT
  {
    AlwaysInv(data, acts);
    RequestedLateIff(data, acts);
    CompleteIff(data, Exec(data, acts));
  }

  /** The same for the sender's belief that it has finished. */
  lemma SenderDoneMeansCompleteIff(data: seq<byte>, acts: seq<Action>)
    requires Exec(data, acts).done
    ensures Exec(data, acts).server.file == data <==> (!RequestedLate(data, acts) || data == []) && |data| <= LIMIT
  {
    AlwaysInv(data, acts);
    RequestedLateIff(data, acts);
    CompleteIff(data, Exec(data, acts));
  }

  lemma CompleteIff(data: seq<byte>, s: System)
    requires Inv(data, s) && (s.server.block == Blocks(data) || s.server.block == LAST_BLOCK)
    ensures s.server.file == data <==> (s.base == 0 || data == []) && |data| <= LIMIT
  {
    BlocksAddUp(data, Blocks(data));
    var all := UpTo(data, s.server.block);
    assert all == data <==> |data| <= LIMIT;
    if s.base == 0 {
      assert UpTo(data, 0) + s.server.file == s.server.file;
    } else if data != [] {
      assert |UpTo(data, s.base)| > 0;
    }
  }

  /** Beyond the limit no run stores the data at all. */
  lemma TooLongIsNeverStored(data: seq<byte>, acts: seq<Action>)
    requires |data| > LIMIT
    ensures |Exec(data, acts).server.file| <= LIMIT < |data|
  {
    AlwaysInv(data, acts);
  }

  lemma {:induction false} BaseNeverFalls(data: seq<byte>, acts: seq<Action>, more: seq<Action>)
    ensures Exec(data, acts).base <= Exec(data, acts + more).base
    decreases |more|
  {
    if more == [] {
      assert acts + more == acts;
    } else {
      var before := acts + more[..|more| - 1];
      assert (acts + more)[..|acts + more| - 1] == before;
      BaseNeverFalls(data, acts, more[..|more| - 1]);
      AlwaysInv(data, before);
    }
  }

  /** A request processed in mid-transfer does damage for good: in no continuation of any kind is the
      file ever what the sender has. */
  lemma LateRequestIsFatal(data: seq<byte>, acts: seq<Action>, more: seq<Action>)
    requires data != [] && Exec(data, acts).server.block > 0
    ensures Exec(data, acts + [RequestAgain] + more).server.file != data
  {
    var late := acts + [RequestAgain];
    assert late[..|late| - 1] == acts;
    BaseNeverFalls(data, late, more);
    AlwaysInv(data, late + more);
    var s := Exec(data, late + more);
    assert |UpTo(data, s.base)| > 0;
    assert |UpTo(data, s.base) + s.server.file| == |UpTo(data, s.server.block)| <= |data|;
  }

  /** The run in which the network delivers every packet once, in order. */
  function Lockstep(data: seq<byte>, k: nat): seq<Action>
    requires k <= Blocks(data)
  {
    if k == 0 then [] else Lockstep(data, k - 1) + [ToSender(AckPacket(k - 1)), ToServer(BlockPacket(data, k))]
  }

  lemma ExecTwo(data: seq<byte>, acts: seq<Action>, a: Action, b: Action)
    ensures Exec(data, acts + [a, b]) == Next(data, Next(data, Exec(data, acts), a), b)
  {
    var all := acts + [a, b];
    assert all[..|all| - 1] == acts + [a];
    assert (acts + [a])[..|acts|] == acts;
  }

  lemma LockstepRound(data: seq<byte>, s: System, k: nat)
    requires 1 <= k <= Blocks(data) <= LAST_BLOCK
    requires s.cur == s.server.block == k - 1 && !s.done && s.server.open && AckPacket(k - 1) in s.toSender
    ensures var t := Next(data, Next(data, s, ToSender(AckPacket(k - 1))), ToServer(BlockPacket(data, k)));
      && t.cur == t.server.block == k && !t.done && (t.server.open <==> k < Blocks(data))
      && AckPacket(k) in t.toSender && t.base == s.base
  {
    AckRoundTrip(k - 1, k - 1);
    var mid := Next(data, s, ToSender(AckPacket(k - 1)));
    assert mid.cur == k && BlockPacket(data, k) in mid.toServer;
    DataRoundTrip(k, BlockData(data, k));
    BlocksAddUp(data, k);
  }

  lemma {:induction false} LockstepProgress(data: seq<byte>, k: nat)
    requires k <= Blocks(data) <= LAST_BLOCK
    ensures var s := Exec(data, Lockstep(data, k));
      && s.cur == s.server.block == k && !s.done && (s.server.open <==> k < Blocks(data))
      && AckPacket(k) in s.toSender && s.base == 0
  {
    if k > 0 {
      LockstepProgress(data, k - 1);
      var s := Exec(data, Lockstep(data, k - 1));
      LockstepRound(data, s, k);
      ExecTwo(data, Lockstep(data, k - 1), ToSender(AckPacket(k - 1)), ToServer(BlockPacket(data, k)));
    }
  }

  /** The transfer can succeed: a network that loses nothing brings any data of fewer than 65535 full
      blocks into the file, closes the server and satisfies the sender. */
  lemma GoodNetworkCompletes(data: seq<byte>)
    requires |data| < LIMIT
    ensures exists acts :: var s := Exec(data, acts); s.done && !s.server.open && s.server.file == data
  {
    var n := Blocks(data);
    LockstepProgress(data, n);
    var acts := Lockstep(data, n) + [ToSender(AckPacket(n))];
    assert acts[..|acts| - 1] == Lockstep(data, n);
    AckRoundTrip(n, n);
    assert Exec(data, acts).done;
    RequestedLateIff(data, acts);
    ClosedMeansCompleteIff(data, acts);
  }
}

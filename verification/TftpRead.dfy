/**
  The read direction of the TFTP server (tftp_send_next_block, rrq_recv_callback). Every packet that
  arrives makes the server read on in the file: a wrong ACK keeps the block number but not the data,
  although the comment at line 306 of tftpserver.c says that the current block is sent again. The file
  object is global: a read request that arrives again opens it anew, under the first transfer.
 */
module TftpRead {
  import opened Bytes
  import opened TftpPackets
  import opened TftpWrite
  import opened TftpCourse

  // ------------------------------------------------------------------ the server

  /** args->block, the position in file_SD, args->data_len and whether the port is still open. */
  datatype Reader = Reader(block: int, pos: nat, dataLen: nat, open: bool)

  /** f_read contract: the next 512 bytes of the file, or what is left. */
  function NextChunk(file: seq<byte>, pos: nat): seq<byte>
    requires pos <= |file|
  {
    file[pos..Min(pos + DATA_LEN_MAX, |file|)]
  }

  /** A DATA packet before it is put into bytes. */
  datatype Sent = Sent(block: int, payload: seq<byte>)
  {
    function Wire(): Packet {
      DataPacket(block, payload)
    }
  }

  function SendNext(file: seq<byte>, r: Reader): (Reader, Sent)
    requires r.pos <= |file|
  {
    var chunk := NextChunk(file, r.pos);
    (r.(pos := r.pos + |chunk|, dataLen := |chunk|), Sent(r.block, chunk))
  }

  /** One callback: the new state and the packet sent, if any. */
  function Answer(file: seq<byte>, r: Reader, p: Packet): (Reader, Option<Sent>)
    requires r.pos <= |file|
  {
    var counted := if IsCorrectAck(p, r.block) then r.(block := r.block + 1) else r;
    if r.dataLen < DATA_LEN_MAX then (counted.(open := false), None)
    else var (next, sent) := SendNext(file, counted); (next, Some(sent))
  }

  /** The first transfer after the request has been processed again. */
  function Reopened(file: seq<byte>, r: Reader): Reader {
    r.(pos := |BlockData(file, 1)|)
  }

  class ReadTransfer {
    const file: seq<byte>
    var block: int
    var pos: nat
    var data: seq<byte>
    var open: bool

    ghost predicate Valid()
      reads this
    {
      pos <= |file|
    }

    function View(): Reader
      reads this
    {
      Reader(block, pos, |data|, open)
    }

    /** The fields set by tftp_process_read, before it sends the first block. */
    constructor (file: seq<byte>)
      ensures Valid() && this.file == file && View() == Reader(1, 0, 0, true)
    {
      this.file, block, pos, data, open := file, 1, 0, [], true;
    }

    method SendNextBlock() returns (wire: Packet)
      requires Valid()
      modifies this
      ensures Valid()
      ensures View() == SendNext(file, old(View())).0 && wire == SendNext(file, old(View())).1.Wire()
    {
      data := NextChunk(file, pos);
      pos := pos + |data|;
      wire := SendDataPacket(block, data);
    }

    /** tftp_process_read for a request that arrives again: file_SD is opened anew, so that it stands at
        its beginning, and its first block goes out from a port of its own. The block number and the
        length of the last block are kept for each port; only the file is shared. */
    method ProcessReadAgain() returns (wire: Packet)
      requires Valid()
      modifies this`pos
      ensures Valid()
      ensures View() == Reopened(file, old(View())) && wire == DataPacket(1, BlockData(file, 1))
    {
      var first := NextChunk(file, 0);
      pos := |first|;
      wire := SendDataPacket(1, first);
    }

    /** A datagram of any length: the source does not look at it. */
    method RrqRecvCallback(datagram: seq<byte>, behind: seq<byte>) returns (sent: Option<Packet>)
      requires Valid() && open && |datagram| + |behind| >= HEADER_LEN
      modifies this
      ensures Valid()
      ensures View() == Answer(file, old(View()), Seen(datagram, behind)).0
      ensures sent == match Answer(file, old(View()), Seen(datagram, behind)).1
        case None => None
        case Some(d) => Some(d.Wire())
    {
      if IsCorrectAck(Seen(datagram, behind), block) {
        block := block + 1;
      }
      if |data| < DATA_LEN_MAX {
        open := false;
        return None;
      }
      var wire := SendNextBlock();
      return Some(wire);
    }
  }

  // ------------------------------------------------------------------ any packets at all

  /** A packet arrives at the port of the transfer, or its request arrives at port 69 once more. */
  datatype Event = Arrives(p: Packet) | Requested

  /** The packets among the events. */
  function Packets(events: seq<Event>): (pkts: seq<Packet>) {
    if events == [] then []
    else match events[|events| - 1]
      case Arrives(p) => Packets(events[..|events| - 1]) + [p]
      case Requested => Packets(events[..|events| - 1])
  }

  function FirstSent(file: seq<byte>): (Reader, Sent) {
    SendNext(file, Reader(1, 0, 0, true))
  }

  /** A closed port has no callback. */
  function Reply(file: seq<byte>, r: Reader, p: Packet): (res: (Reader, Option<Sent>))
    requires r.pos <= |file|
    ensures res.0.pos <= |file|
  {
    if r.open then Answer(file, r, p) else (r, None)
  }

  function WithReply(sent: seq<Sent>, out: Option<Sent>): seq<Sent> {
    match out
    case Some(d) => sent + [d]
    case None => sent
  }

  /** The server after the first block and these events, and everything it has sent from the port of the
      transfer. */
  function Run(file: seq<byte>, events: seq<Event>): (res: (Reader, seq<Sent>))
    ensures res.0.pos <= |file|
  {
    if events == [] then (FirstSent(file).0, [FirstSent(file).1])
    else
      var (r, sent) := Run(file, events[..|events| - 1]);
      match events[|events| - 1]
      case Requested => (Reopened(file, r), sent)
      case Arrives(p) => (Reply(file, r, p).0, WithReply(sent, Reply(file, r, p).1))
  }

  lemma RunOne(file: seq<byte>, before: seq<Event>, e: Event)
    ensures var (r, sent) := Run(file, before);
      Run(file, before + [e]) == match e
        case Requested => (Reopened(file, r), sent)
        case Arrives(p) => (Reply(file, r, p).0, WithReply(sent, Reply(file, r, p).1))
  {
    assert (before + [e])[..|before|] == before;
  }

  /** How many of the packets are the ACK that is due when they arrive: number 1, then 2, ... */
  function CorrectAcks(pkts: seq<Packet>): (n: nat)
    ensures n <= |pkts| && n <= LAST_BLOCK
  {
    if pkts == [] then 0
    else
      var n := CorrectAcks(pkts[..|pkts| - 1]);
      if IsCorrectAck(pkts[|pkts| - 1], n + 1) then n + 1 else n
  }

  /** How many of the first k packets are. */
  function Acked(pkts: seq<Packet>, k: nat): (n: nat)
    requires k <= |pkts|
  {
    CorrectAcks(pkts[..k])
  }

  // ------------------------------------------------------------------ the server keeps its course

  /** The server when the file stands after `at` slices and the last one sent was `last`. */
  function ReaderAt(file: seq<byte>, at: nat, last: nat, block: int): Reader
    requires 1 <= at <= Blocks(file) && 1 <= last <= Blocks(file)
  {
    Reader(block, |UpTo(file, at)|, |BlockData(file, last)|, true)
  }

  ghost predicate ServerAt(file: seq<byte>, c: Course, r: Reader)
    requires Bounded(Blocks(file), c)
  {
    && (r.open <==> c.open)
    && (c.open ==> r == ReaderAt(file, c.since + 1, c.Last(), c.number))
  }

  /** The packet that a mark stands for. */
  function Rendered(file: seq<byte>, m: Mark): Sent
    requires 1 <= m.slice <= Blocks(file)
  {
    Sent(m.number, BlockData(file, m.slice))
  }

  function RenderedAll(file: seq<byte>, marks: seq<Mark>): (sent: seq<Sent>)
    requires InRange(Blocks(file), marks)
    ensures |sent| == |marks|
  {
    if marks == [] then []
    else RenderedAll(file, marks[..|marks| - 1]) + [Rendered(file, marks[|marks| - 1])]
  }

  lemma {:induction false} RenderedAt(file: seq<byte>, marks: seq<Mark>, k: nat)
    requires InRange(Blocks(file), marks) && k < |marks|
    ensures RenderedAll(file, marks)[k] == Rendered(file, marks[k])
  {
    if k < |marks| - 1 {
      RenderedAt(file, marks[..|marks| - 1], k);
    }
  }

  lemma RenderedGrows(file: seq<byte>, marks: seq<Mark>, m: Mark)
    requires InRange(Blocks(file), marks) && 1 <= m.slice <= Blocks(file)
    ensures InRange(Blocks(file), marks + [m])
    ensures RenderedAll(file, marks + [m]) == RenderedAll(file, marks) + [Rendered(file, m)]
  {
    assert (marks + [m])[..|marks|] == marks;
  }

  /** With the file standing before its end, a callback sends the slice it stands at; after the last slice
      it closes. */
  lemma AnswerForm(file: seq<byte>, r: Reader, p: Packet, at: nat, last: nat)
    requires 1 <= at <= Blocks(file) && 1 <= last <= Blocks(file) && (last < Blocks(file) ==> at < Blocks(file))
    requires r == ReaderAt(file, at, last, r.block)
    ensures var (r', out) := Answer(file, r, p);
      var block := if IsCorrectAck(p, r.block) then r.block + 1 else r.block;
      if last == Blocks(file) then !r'.open && r'.pos <= |file| && out == None
      else r' == ReaderAt(file, at + 1, at + 1, block) && out == Some(Sent(block, BlockData(file, at + 1)))
  {
    BlocksAddUp(file, last);
    BlocksAddUp(file, at);
    if last < Blocks(file) {
      BlocksAddUp(file, at + 1);
      assert NextChunk(file, r.pos) == BlockData(file, at + 1);
    }
  }

  /** What an arrival is in the course of the transfer. */
  function Arrived(c: Course, p: Packet): Step {
    Arrival(IsCorrectAck(p, c.number))
  }

  lemma ServerReplies(file: seq<byte>, c: Course, r: Reader, p: Packet)
    requires Bounded(Blocks(file), c) && Bounded(Blocks(file), c.After(Blocks(file), Arrived(c, p)))
    requires ServerAt(file, c, r) && r.pos <= |file|
    ensures var c' := c.After(Blocks(file), Arrived(c, p));
      && ServerAt(file, c', Reply(file, r, p).0)
      && Reply(file, r, p).1
         == if c.Last() < Blocks(file) then Some(Rendered(file, Mark(c'.number, c.since + 2))) else None
  {
    if r.open {
      AnswerForm(file, r, p, c.since + 1, c.Last());
    }
  }

  lemma SentReplies(file: seq<byte>, c: Course, p: Packet)
    requires Bounded(Blocks(file), c) && Bounded(Blocks(file), c.After(Blocks(file), Arrived(c, p)))
    ensures var c' := c.After(Blocks(file), Arrived(c, p));
      RenderedAll(file, c'.marks) == WithReply(RenderedAll(file, c.marks),
        if c.Last() < Blocks(file) then Some(Rendered(file, Mark(c'.number, c.since + 2))) else None)
  {
    if c.Last() < Blocks(file) {
      RenderedGrows(file, c.marks, Mark(c.After(Blocks(file), Arrived(c, p)).number, c.since + 2));
    }
  }

  /** The events as steps. */
  function Steps(blocks: nat, events: seq<Event>): (steps: seq<Step>) {
    if events == [] then []
    else
      var before := Steps(blocks, events[..|events| - 1]);
      match events[|events| - 1]
      case Requested => before + [Again]
      case Arrives(p) => before + [Arrived(CourseOf(blocks, before), p)]
  }

  function RunCourse(blocks: nat, events: seq<Event>): Course {
    CourseOf(blocks, Steps(blocks, events))
  }

  lemma RunCourseOne(blocks: nat, before: seq<Event>, e: Event)
    requires blocks >= 1
    ensures var c := RunCourse(blocks, before);
      && Bounded(blocks, c)
      && RunCourse(blocks, before + [e]) == c.After(blocks, if e.Requested? then Again else Arrived(c, e.p))
      && Bounded(blocks, RunCourse(blocks, before + [e]))
  {
    assert (before + [e])[..|before|] == before;
    var c, steps := RunCourse(blocks, before), Steps(blocks, before);
    var step := if e.Requested? then Again else Arrived(c, e.p);
    CourseOne(blocks, steps, step);
    NextBounded(blocks, steps, step);
  }

  ghost predicate RunForm(file: seq<byte>, events: seq<Event>) {
    var c := RunCourse(Blocks(file), events);
    && Bounded(Blocks(file), c)
    && ServerAt(file, c, Run(file, events).0)
    && Run(file, events).1 == RenderedAll(file, c.marks)
  }

  lemma FirstSentForm(file: seq<byte>)
    ensures FirstSent(file) == (ReaderAt(file, 1, 1, 1), Rendered(file, Mark(1, 1)))
  {
    assert NextChunk(file, 0) == BlockData(file, 1);
  }

  lemma FirstForm(file: seq<byte>)
    ensures RunForm(file, [])
  {
    FirstSentForm(file);
    assert FIRST.marks == [] + [Mark(1, 1)];
    RenderedGrows(file, [], Mark(1, 1));
    assert [] + [Rendered(file, Mark(1, 1))] == [Rendered(file, Mark(1, 1))];
  }

  lemma ArrivalStep(file: seq<byte>, before: seq<Event>, p: Packet)
    requires RunForm(file, before)
    ensures RunForm(file, before + [Arrives(p)])
  {
    var c := RunCourse(Blocks(file), before);
    RunCourseOne(Blocks(file), before, Arrives(p));
    RunOne(file, before, Arrives(p));
    ServerReplies(file, c, Run(file, before).0, p);
    SentReplies(file, c, p);
  }

  lemma RequestStep(file: seq<byte>, before: seq<Event>)
    requires RunForm(file, before)
    ensures RunForm(file, before + [Requested])
  {
    RunCourseOne(Blocks(file), before, Requested);
    RunOne(file, before, Requested);
  }

  /** The server's bytes and positions follow the course in numbers. */
  lemma {:induction false} RunFollowsCourse(file: seq<byte>, events: seq<Event>)
    ensures RunForm(file, events)
  {
    if events == [] {
      FirstForm(file);
    } else {
      var before, e := events[..|events| - 1], events[|events| - 1];
      RunFollowsCourse(file, before);
      assert before + [e] == events;
      match e
      case Arrives(p) => ArrivalStep(file, before, p);
      case Requested => RequestStep(file, before);
    }
  }

  // ------------------------------------------------------------------ the numbers

  /** The packets are numbered 1 plus the correct ACKs by then. */
  ghost predicate NumberForm(pkts: seq<Packet>, c: Course) {
    && |c.marks| <= |pkts| + 1
    && (c.open ==> |c.marks| == |pkts| + 1 && c.number == CorrectAcks(pkts) + 1)
    && forall k: nat :: k < |c.marks| ==> c.marks[k].number == Acked(pkts, k) + 1
  }

  lemma NumberStep(blocks: nat, pkts: seq<Packet>, c: Course, p: Packet)
    requires NumberForm(pkts, c) && Bounded(blocks, c)
    ensures NumberForm(pkts + [p], c.After(blocks, Arrived(c, p)))
  {
    var pkts' := pkts + [p];
    assert pkts'[..|pkts|] == pkts && pkts'[..|pkts'|] == pkts';
    forall k: nat | k <= |pkts|
      ensures Acked(pkts', k) == Acked(pkts, k)
    {
      assert pkts'[..k] == pkts[..k];
    }
  }

  lemma {:induction false} NumbersAlways(blocks: nat, events: seq<Event>)
    requires blocks >= 1
    ensures NumberForm(Packets(events), RunCourse(blocks, events))
  {
    if events != [] {
      var before, e := events[..|events| - 1], events[|events| - 1];
      NumbersAlways(blocks, before);
      assert before + [e] == events;
      RunCourseOne(blocks, before, e);
      if e.Arrives? {
        NumberStep(blocks, Packets(before), RunCourse(blocks, before), e.p);
      }
    }
  }

  /** The complete description of a run, whatever arrives: the k-th DATA packet carries the k-th slice of
      the course, under 1 plus the correct ACKs by then; the port is open as long as the course is. */
  lemma AnyPackets(file: seq<byte>, events: seq<Event>)
    ensures var (r, sent) := Run(file, events);
      var c, pkts := RunCourse(Blocks(file), events), Packets(events);
      && InRange(Blocks(file), c.marks) && |sent| == |c.marks| <= |pkts| + 1
      && (forall k: nat :: k < |sent| ==> sent[k] == Sent(Acked(pkts, k) + 1, BlockData(file, c.marks[k].slice)))
      && (r.open <==> c.open)
      && (r.open ==> |sent| == |pkts| + 1 && r.block == CorrectAcks(pkts) + 1)
  {
    RunFollowsCourse(file, events);
    NumbersAlways(Blocks(file), events);
    var c, pkts := RunCourse(Blocks(file), events), Packets(events);
    forall k: nat | k < |c.marks|
      ensures Run(file, events).1[k] == Sent(Acked(pkts, k) + 1, BlockData(file, c.marks[k].slice))
    {
      RenderedAt(file, c.marks, k);
    }
  }

  /** As long as no request is processed inside, the k-th packet carries the k-th slice, and the port
      closes at callback number size/512 + 1 and not before. */
  lemma UndisturbedIsInSequence(file: seq<byte>, events: seq<Event>)
    requires !RequestedInside(Blocks(file), Steps(Blocks(file), events))
    ensures var (r, sent) := Run(file, events);
      var pkts := Packets(events);
      && |sent| == Min(|pkts| + 1, Blocks(file))
      && (forall k: nat :: k < |sent| ==> sent[k] == Sent(Acked(pkts, k) + 1, BlockData(file, k + 1)))
      && (r.open <==> |pkts| < Blocks(file))
  {
    AnyPackets(file, events);
    var steps := Steps(Blocks(file), events);
    InsideIff(Blocks(file), steps);
    CourseAlways(Blocks(file), steps);
    AllAnswered(Blocks(file), steps);
    ArrivalsArePackets(Blocks(file), events);
  }

  lemma {:induction false} ArrivalsArePackets(blocks: nat, events: seq<Event>)
    ensures Arrivals(Steps(blocks, events)) == |Packets(events)|
    ensures |Steps(blocks, events)| == |events|
  {
    if events != [] {
      var before := events[..|events| - 1];
      ArrivalsArePackets(blocks, before);
      assert Steps(blocks, events)[..|before|] == Steps(blocks, before);
    }
  }

  /** The number of correct ACKs among k packets is k only if all of them were correct. */
  lemma {:induction false} AllAcksCorrectIff(pkts: seq<Packet>, k: nat)
    requires k <= |pkts|
    ensures CorrectAcks(pkts[..k]) == k <==> forall i: nat :: i < k ==> IsCorrectAck(pkts[i], i + 1)
  {
    if k > 0 {
      AllAcksCorrectIff(pkts, k - 1);
      assert pkts[..k][..k - 1] == pkts[..k - 1];
      assert CorrectAcks(pkts[..k - 1]) <= k - 1;
    }
  }

  /** All the packets sent are numbered 1, 2, 3, ... as 16 bits. */
  ghost predicate NumberedRight(sent: seq<Sent>) {
    forall k: nat :: k < |sent| ==> ExtractBlock(sent[k].Wire()) == Low16(k + 1)
  }

  /** The first n packets to arrive are the ACKs of 1, 2, 3, ... */
  ghost predicate AckedRight(pkts: seq<Packet>, n: nat)
    requires n <= |pkts|
  {
    forall i: nat :: i < n ==> IsCorrectAck(pkts[i], i + 1)
  }

  /** The packets of a run carry these numbers. */
  ghost predicate NumberedBy(pkts: seq<Packet>, sent: seq<Sent>) {
    && 0 < |sent| <= |pkts| + 1
    && forall k: nat :: k < |sent| ==> ExtractBlock(sent[k].Wire()) == Low16(Acked(pkts, k) + 1)
  }

  lemma SentNumbers(file: seq<byte>, events: seq<Event>)
    ensures NumberedBy(Packets(events), Run(file, events).1)
  {
    AnyPackets(file, events);
    CourseAlways(Blocks(file), Steps(Blocks(file), events));
    var sent, pkts := Run(file, events).1, Packets(events);
    forall k: nat | k < |sent|
      ensures ExtractBlock(sent[k].Wire()) == Low16(Acked(pkts, k) + 1)
    {
      DataRoundTrip(Acked(pkts, k) + 1, sent[k].payload);
    }
  }

  lemma RightAcksRightNumbers(pkts: seq<Packet>, sent: seq<Sent>)
    requires NumberedBy(pkts, sent) && AckedRight(pkts, |sent| - 1)
    ensures NumberedRight(sent)
  {
    forall k: nat | k < |sent|
      ensures ExtractBlock(sent[k].Wire()) == Low16(k + 1)
    {
      AllAcksCorrectIff(pkts, k);
    }
  }

  lemma LowDiffers(n: int)
    ensures Low16(n) != Low16(n + 1)
  {
  }

  lemma WrongAckWrongNumber(pkts: seq<Packet>, sent: seq<Sent>, i: nat)
    requires NumberedBy(pkts, sent)
    requires i < |sent| - 1 && !IsCorrectAck(pkts[i], i + 1)
    ensures !NumberedRight(sent)
  {
    FirstWrongAck(pkts, i);
    var j: nat :| j <= i && Acked(pkts, j) == j == Acked(pkts, j + 1);
    LowDiffers(j + 1);
    assert ExtractBlock(sent[j + 1].Wire()) == Low16(j + 1);
  }

  /** The k-th packet sent is numbered k (as 16 bits) for all k exactly when every packet that arrived
      before the last block went out was the ACK due. After one wrong or repeated packet some slice
      travels under the number of an earlier one. Requests do not change that. */
  lemma NumberedRightIff(file: seq<byte>, events: seq<Event>)
    ensures 0 < |Run(file, events).1| <= |Packets(events)| + 1
    ensures NumberedRight(Run(file, events).1) <==> AckedRight(Packets(events), |Run(file, events).1| - 1)
  {
    SentNumbers(file, events);
    var pkts, sent := Packets(events), Run(file, events).1;
    if AckedRight(pkts, |sent| - 1) {
      RightAcksRightNumbers(pkts, sent);
    } else {
      var i: nat :| i < |sent| - 1 && !IsCorrectAck(pkts[i], i + 1);
      WrongAckWrongNumber(pkts, sent, i);
    }
  }

  lemma {:induction false} FirstWrongAck(pkts: seq<Packet>, i: nat)
    requires i < |pkts| && !IsCorrectAck(pkts[i], i + 1)
    ensures exists j: nat :: j <= i && Acked(pkts, j) == j == Acked(pkts, j + 1)
  {
    if CorrectAcks(pkts[..i]) == i {
      assert pkts[..i + 1][..i] == pkts[..i];
      assert Acked(pkts, i) == i == Acked(pkts, i + 1);
    } else {
      AllAcksCorrectIff(pkts, i);
      var h: nat :| h < i && !IsCorrectAck(pkts[h], h + 1);
      FirstWrongAck(pkts, h);
    }
  }

  /** The comment at line 306, refuted on every state it is about: a wrong ACK before the last slice makes
      the server send the same number again, with the slice the file stands at. That is the slice after
      the one sent last, or, if a request came after that one, the second of the file. */
  lemma WrongAckDoesNotResend(file: seq<byte>, events: seq<Event>, wrong: Packet)
    requires RunCourse(Blocks(file), events).Last() < Blocks(file)
    requires !IsCorrectAck(wrong, CorrectAcks(Packets(events)) + 1)
    ensures var c, sent := RunCourse(Blocks(file), events), Run(file, events).1;
      && sent != [] && 1 <= c.Last() && c.since + 2 <= Blocks(file)
      && sent[|sent| - 1] == Rendered(file, Mark(c.number, c.Last()))
      && Run(file, events + [Arrives(wrong)]).1 == sent + [Rendered(file, Mark(c.number, c.since + 2))]
  {
    var c := RunCourse(Blocks(file), events);
    RunFollowsCourse(file, events);
    RunCourseOne(Blocks(file), events, Arrives(wrong));
    LastSent(file, events);
    RunOne(file, events, Arrives(wrong));
    WrongReply(file, c, Run(file, events).0, wrong);
  }

  lemma LastSent(file: seq<byte>, events: seq<Event>)
    requires RunForm(file, events) && RunCourse(Blocks(file), events).open
    ensures var c, sent := RunCourse(Blocks(file), events), Run(file, events).1;
      && 1 <= c.Last() <= Blocks(file) && sent != []
      && sent[|sent| - 1] == Rendered(file, Mark(c.number, c.Last()))
      && c.number == CorrectAcks(Packets(events)) + 1
  {
    var c, pkts := RunCourse(Blocks(file), events), Packets(events);
    NumbersAlways(Blocks(file), events);
    RenderedAt(file, c.marks, |c.marks| - 1);
    assert pkts[..|pkts|] == pkts;
  }

  lemma WrongReply(file: seq<byte>, c: Course, r: Reader, wrong: Packet)
    requires Bounded(Blocks(file), c) && Bounded(Blocks(file), c.After(Blocks(file), Arrived(c, wrong)))
    requires ServerAt(file, c, r) && r.pos <= |file|
    requires c.Last() < Blocks(file) && !IsCorrectAck(wrong, c.number)
    ensures c.since + 2 <= Blocks(file)
    ensures Reply(file, r, wrong).1 == Some(Rendered(file, Mark(c.number, c.since + 2)))
  {
    ServerReplies(file, c, r, wrong);
  }

  // ------------------------------------------------------------------ with a client

  /** A client with 16-bit numbers: it keeps the block it waits for, acknowledges what it gets, and
      acknowledges its last block again when something else arrives. */
  datatype Client = Client(blocks: nat, got: seq<byte>, done: bool)

  function Take(c: Client, p: Packet): (Client, Packet) {
    if !c.done && ExtractBlock(p) == Low16(c.blocks + 1)
    then (Client(c.blocks + 1, c.got + Payload(p), |Payload(p)| < DATA_LEN_MAX), AckPacket(c.blocks + 1))
    else (c, AckPacket(c.blocks))
  }

  datatype Session = Session(server: Reader, client: Client, inFlight: Option<Sent>)

  /** An exchange over a channel that delivers each packet exactly once, in order. */
  function Exchanged(file: seq<byte>, s: Session): (t: Session)
    requires s.server.pos <= |file|
    ensures t.server.pos <= |file|
  {
    if s.inFlight.None? then s
    else
      var (client, ack) := Take(s.client, s.inFlight.value.Wire());
      var (r, sent) := Reply(file, s.server, ack);
      Session(r, client, sent)
  }

  /** Exchanges (false), and among them requests that are processed again (true). The client does not
      answer what comes from another port. */
  function Talk(file: seq<byte>, again: seq<bool>): (s: Session)
    ensures s.server.pos <= |file|
  {
    if again == [] then Session(FirstSent(file).0, Client(0, [], false), Some(FirstSent(file).1))
    else
      var s := Talk(file, again[..|again| - 1]);
      if again[|again| - 1] then s.(server := Reopened(file, s.server)) else Exchanged(file, s)
  }

  /** The client can follow the numbers 1 .. 65535, 0 and no further. */
  const CLIENT_LIMIT := 0x1_0000

  /** Every ACK is the one due, up to the last number that an int compared with 16 bits can meet. */
  function TalkStep(c: Course, again: bool): Step {
    if again then Again else Arrival(c.number <= LAST_BLOCK)
  }

  function TalkSteps(blocks: nat, again: seq<bool>): (steps: seq<Step>)
    ensures |steps| == |again|
  {
    if again == [] then []
    else
      var before := TalkSteps(blocks, again[..|again| - 1]);
      before + [TalkStep(CourseOf(blocks, before), again[|again| - 1])]
  }

  function TalkCourse(blocks: nat, again: seq<bool>): Course {
    CourseOf(blocks, TalkSteps(blocks, again))
  }

  /** The packets sent are numbered 1 to 65536, and the rest 65536 as well. */
  predicate NumberedTo(c: Course) {
    c.open ==> c.marks != [] && c.marks[|c.marks| - 1].number == c.number == Min(|c.marks| - 1, LAST_BLOCK) + 1
  }

  lemma TalkNumbersStep(blocks: nat, c: Course, again: bool)
    requires NumberedTo(c) && (c.Last() < blocks ==> c.open)
    ensures NumberedTo(c.After(blocks, TalkStep(c, again)))
  {
  }

  lemma {:induction false} TalkNumbers(blocks: nat, again: seq<bool>)
    requires blocks >= 1
    ensures NumberedTo(TalkCourse(blocks, again))
  {
    if again != [] {
      var before := again[..|again| - 1];
      TalkNumbers(blocks, before);
      var c := TalkCourse(blocks, before);
      CourseAlways(blocks, TalkSteps(blocks, before));
      TalkNumbersStep(blocks, c, again[|again| - 1]);
      CourseOne(blocks, TalkSteps(blocks, before), TalkStep(c, again[|again| - 1]));
    }
  }

  /** The slices that marks stand for, one after the other. */
  function Content(file: seq<byte>, marks: seq<Mark>): seq<byte>
    requires InRange(Blocks(file), marks)
  {
    if marks == [] then []
    else Content(file, marks[..|marks| - 1]) + BlockData(file, marks[|marks| - 1].slice)
  }

  /** How many packets have been delivered, as far as the client can follow the numbers. */
  function Taken(c: Course): nat {
    if c.open && c.marks != [] then Min(|c.marks| - 1, CLIENT_LIMIT) else Min(|c.marks|, CLIENT_LIMIT)
  }

  ghost predicate ClientAt(file: seq<byte>, c: Course, client: Client)
    requires Bounded(Blocks(file), c)
  {
    client == Client(Taken(c), Content(file, c.marks[..Taken(c)]), !c.open && |c.marks| <= CLIENT_LIMIT)
  }

  ghost predicate SessionAt(file: seq<byte>, c: Course, s: Session)
    requires Bounded(Blocks(file), c)
  {
    && ServerAt(file, c, s.server)
    && ClientAt(file, c, s.client)
    && s.inFlight == if c.open then Some(Rendered(file, Mark(c.number, c.Last()))) else None
  }

  ghost predicate TalkForm(file: seq<byte>, again: seq<bool>) {
    var c := TalkCourse(Blocks(file), again);
    Bounded(Blocks(file), c) && SessionAt(file, c, Talk(file, again))
  }

  lemma FirstTalk(file: seq<byte>)
    ensures TalkForm(file, [])
  {
    FirstSentForm(file);
    assert FIRST.marks[..0] == [];
  }

  /** What the client makes of the j-th block: it takes it as long as it can follow the numbers. */
  lemma TakeForm(file: seq<byte>, c: Client, block: int, j: nat, slice: nat)
    requires 1 <= j && 1 <= slice <= Blocks(file) && !c.done
    requires c.blocks == Min(j - 1, CLIENT_LIMIT) && block == Min(j - 1, LAST_BLOCK) + 1
    ensures var (c', ack) := Take(c, DataPacket(block, BlockData(file, slice)));
      && c'.blocks == Min(j, CLIENT_LIMIT)
      && c'.got == (if j <= CLIENT_LIMIT then c.got + BlockData(file, slice) else c.got)
      && (c'.done <==> j <= CLIENT_LIMIT && slice == Blocks(file))
      && (IsCorrectAck(ack, block) <==> block <= LAST_BLOCK)
  {
    DataRoundTrip(block, BlockData(file, slice));
    BlocksAddUp(file, slice);
    AckRoundTrip(c.blocks + 1, block);
    AckRoundTrip(c.blocks, block);
  }

  lemma ContentGrows(file: seq<byte>, marks: seq<Mark>, n: nat)
    requires InRange(Blocks(file), marks) && n < |marks|
    ensures Content(file, marks[..n + 1]) == Content(file, marks[..n]) + BlockData(file, marks[n].slice)
  {
    assert marks[..n + 1][..n] == marks[..n];
  }

  /** One exchange with the port open: the client takes the block in flight, and its ACK counts as far as
      an ACK can. */
  lemma ClientTakes(file: seq<byte>, c: Course, client: Client)
    requires Bounded(Blocks(file), c) && Bounded(Blocks(file), c.After(Blocks(file), TalkStep(c, false)))
    requires c.open && ClientAt(file, c, client) && NumberedTo(c)
    ensures var (client', ack) := Take(client, Rendered(file, Mark(c.number, c.Last())).Wire());
      && ClientAt(file, c.After(Blocks(file), TalkStep(c, false)), client')
      && Arrived(c, ack) == TalkStep(c, false)
  {
    var n, c' := |c.marks|, c.After(Blocks(file), TalkStep(c, false));
    TakeForm(file, client, c.number, n, c.Last());
    if n <= CLIENT_LIMIT {
      ContentGrows(file, c.marks, n - 1);
    }
    assert c'.marks[..Taken(c')] == c.marks[..Min(n, CLIENT_LIMIT)];
  }

  lemma ExchangeStep(file: seq<byte>, c: Course, s: Session)
    requires Bounded(Blocks(file), c) && Bounded(Blocks(file), c.After(Blocks(file), TalkStep(c, false)))
    requires c.open && NumberedTo(c) && SessionAt(file, c, s) && s.server.pos <= |file|
    ensures SessionAt(file, c.After(Blocks(file), TalkStep(c, false)), Exchanged(file, s))
  {
    ClientTakes(file, c, s.client);
    ServerReplies(file, c, s.server, Take(s.client, s.inFlight.value.Wire()).1);
  }

  lemma TalkOne(file: seq<byte>, before: seq<bool>, again: bool)
    ensures var blocks, s := Blocks(file), Talk(file, before);
      var c := TalkCourse(blocks, before);
      && Talk(file, before + [again])
         == (if again then s.(server := Reopened(file, s.server)) else Exchanged(file, s))
      && TalkCourse(blocks, before + [again]) == c.After(blocks, TalkStep(c, again))
      && Bounded(blocks, c) && Bounded(blocks, c.After(blocks, TalkStep(c, again)))
  {
    assert (before + [again])[..|before|] == before;
    var blocks := Blocks(file);
    var steps := TalkSteps(blocks, before);
    CourseOne(blocks, steps, TalkStep(CourseOf(blocks, steps), again));
    NextBounded(blocks, steps, TalkStep(CourseOf(blocks, steps), again));
  }

  /** Server and client after any exchanges and requests: the client has the slices sent, as far as it can
      follow the numbers. */
  lemma {:induction false} TalkAlways(file: seq<byte>, again: seq<bool>)
    ensures TalkForm(file, again)
  {
    if again == [] {
      FirstTalk(file);
    } else {
      var before, last := again[..|again| - 1], again[|again| - 1];
      TalkAlways(file, before);
      assert before + [last] == again;
      TalkOne(file, before, last);
      if !last && TalkCourse(Blocks(file), before).open {
        TalkNumbers(Blocks(file), before);
        ExchangeStep(file, TalkCourse(Blocks(file), before), Talk(file, before));
      }
    }
  }

  lemma {:induction false} ContentInSequence(file: seq<byte>, marks: seq<Mark>)
    requires InSequence(marks) && |marks| <= Blocks(file)
    ensures InRange(Blocks(file), marks) && Content(file, marks) == UpTo(file, |marks|)
  {
    if marks != [] {
      ContentInSequence(file, marks[..|marks| - 1]);
      BlocksAddUp(file, |marks|);
    }
  }

  /** All slices but the last one of the file are full. */
  lemma {:induction false} ContentLength(file: seq<byte>, marks: seq<Mark>)
    requires InRange(Blocks(file), marks) && EndsOnce(Blocks(file), marks)
    ensures |Content(file, marks)| == DATA_LEN_MAX * |marks|
      - if marks != [] && marks[|marks| - 1].slice == Blocks(file) then DATA_LEN_MAX - |file| % DATA_LEN_MAX else 0
  {
    if marks != [] {
      var before := marks[..|marks| - 1];
      if before != [] {
        assert before[|before| - 1] == marks[|marks| - 2];
      }
      ContentLength(file, before);
      BlocksAddUp(file, marks[|marks| - 1].slice);
    }
  }

  /** A client that was sent the file and more has too much, whatever is in it, or as much as it can
      follow. */
  lemma TooManySlices(file: seq<byte>, c: Course)
    requires CourseForm(Blocks(file), c) && !c.open && c.inside
    ensures var got := Content(file, c.marks[..Taken(c)]);
      |got| == if |c.marks| <= CLIENT_LIMIT then |file| + DATA_LEN_MAX * (|c.marks| - Blocks(file))
               else DATA_LEN_MAX * CLIENT_LIMIT
  {
    ContentLength(file, c.marks[..Taken(c)]);
  }

  /** When the server has closed, the client has the file, and knows it, exactly if no request was
      processed inside and the file has fewer than 65536 full blocks. With a request inside it never has
      it (but for a file of exactly 65536 full blocks, which may repeat itself), and without one it has it
      exactly up to that length. */
  lemma ClientGetsFileIff(file: seq<byte>, again: seq<bool>)
    requires !Talk(file, again).server.open
    ensures var client := Talk(file, again).client;
      var inside := RequestedInside(Blocks(file), TalkSteps(Blocks(file), again));
      && (client.done && client.got == file <==> !inside && |file| < CLIENT_LIMIT * DATA_LEN_MAX)
      && (|file| != CLIENT_LIMIT * DATA_LEN_MAX ==>
            (client.got == file <==> !inside && |file| < CLIENT_LIMIT * DATA_LEN_MAX))
      && (!inside ==> (client.got == file <==> |file| <= CLIENT_LIMIT * DATA_LEN_MAX))
  {
    TalkAlways(file, again);
    CourseAlways(Blocks(file), TalkSteps(Blocks(file), again));
    InsideIff(Blocks(file), TalkSteps(Blocks(file), again));
    var c := TalkCourse(Blocks(file), again);
    if c.inside {
      TooManySlices(file, c);
    } else {
      ContentInSequence(file, c.marks[..Taken(c)]);
      BlocksAddUp(file, Blocks(file));
    }
  }

  /** Exchanges and nothing else. */
  function Exchanges(n: nat): (again: seq<bool>)
    ensures |again| == n && forall i :: 0 <= i < n ==> !again[i]
  {
    seq(n, _ => false)
  }

  lemma {:induction false} ExchangesAreQuiet(blocks: nat, n: nat)
    ensures Quiet(TalkSteps(blocks, Exchanges(n)))
  {
    if n > 0 {
      assert Exchanges(n)[..n - 1] == Exchanges(n - 1);
      ExchangesAreQuiet(blocks, n - 1);
    }
  }

  /** Every file on the 16 MB flash is short enough: after size/512 + 1 exchanges the server has closed and
      the client has the file. */
  lemma FlashFilesArrive(file: seq<byte>)
    requires |file| <= 0x100_0000
    ensures var s := Talk(file, Exchanges(Blocks(file)));
      s.client.done && s.client.got == file && !s.server.open
  {
    var again := Exchanges(Blocks(file));
    var steps := TalkSteps(Blocks(file), again);
    ExchangesAreQuiet(Blocks(file), Blocks(file));
    ClosesWithin(Blocks(file), [], steps);
    assert [] + steps == steps;
    QuietIsUndisturbed(Blocks(file), steps);
    InsideIff(Blocks(file), steps);
    TalkAlways(file, again);
    ClientGetsFileIff(file, again);
  }
}

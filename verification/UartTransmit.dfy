/**
  The transmit ring of the debug UART: _write fills it byte by byte, the interrupt handler empties it
  and switches its own interrupt off when it finds nothing. The two are interleaved at every statement
  of _write, not only between calls.
 */
module UartTransmit {
  import opened Bytes
  import opened Rings

  const TX_SIZE := 8000

  /** Where _write stands. It tests for emptiness once and acts on the answer to the end. */
  datatype Pc = Idle | SawEmpty(b: byte) | SawData(b: byte) | StoredEmpty(b: byte) | StoredData(b: byte) | Advanced

  /** buf_dbg with its two indices and the interrupt enable; written and sent are histories. */
  datatype Tx = Tx(buf: seq<byte>, wr: nat, rd: nat, irq: bool, pc: Pc, written: seq<byte>, sent: seq<byte>)

  datatype Action = Begin(b: byte) | Store | Advance | Enable | Isr

  ghost predicate Shape(s: Tx) {
    |s.buf| == TX_SIZE && s.wr < TX_SIZE && s.rd < TX_SIZE
  }

  function Start(): Tx {
    Tx(seq(TX_SIZE, _ => 0), 0, 0, false, Idle, [], [])
  }

  /** One step; an action that is not possible here changes nothing. */
  function Next(s: Tx, a: Action): (t: Tx)
    requires |s.buf| == TX_SIZE && s.wr < TX_SIZE && s.rd < TX_SIZE
    ensures |t.buf| == TX_SIZE && t.wr < TX_SIZE && t.rd < TX_SIZE
  {
    match a
    case Begin(b) => if s.pc != Idle then s else s.(pc := if s.rd == s.wr then SawEmpty(b) else SawData(b))
    case Store =>
      if s.pc.SawEmpty? then s.(buf := s.buf[s.wr := s.pc.b], pc := StoredEmpty(s.pc.b))
      else if s.pc.SawData? then s.(buf := s.buf[s.wr := s.pc.b], pc := StoredData(s.pc.b))
      else s
    case Advance =>
      if s.pc.StoredEmpty? then s.(wr := Wrap(s.wr, TX_SIZE), written := s.written + [s.pc.b], pc := Advanced)
      else if s.pc.StoredData? then s.(wr := Wrap(s.wr, TX_SIZE), written := s.written + [s.pc.b], pc := Idle)
      else s
    case Enable => if s.pc == Advanced then s.(irq := true, pc := Idle) else s
    case Isr =>
      if !s.irq then s
      else if s.rd == s.wr then s.(irq := false)
      else s.(sent := s.sent + [s.buf[s.rd]], rd := Wrap(s.rd, TX_SIZE))
  }

  function Exec(acts: seq<Action>): (s: Tx)
    ensures |s.buf| == TX_SIZE && s.wr < TX_SIZE && s.rd < TX_SIZE
  {
    if acts == [] then Start() else Next(Exec(acts[..|acts| - 1]), acts[|acts| - 1])
  }

  /** The ring never holds as many bytes as it has places. */
  ghost predicate Fits(acts: seq<Action>) {
    acts != [] ==> Fits(acts[..|acts| - 1]) && |Exec(acts).written| < |Exec(acts).sent| + 8000
  }

  function Queued(s: Tx): seq<byte> {
    if |s.sent| <= |s.written| then s.written[|s.sent|..] else []
  }

  // ------------------------------------------------------------------ first in, first out

  ghost predicate Fifo(s: Tx) {
    && Shape(s)
    && |s.sent| <= |s.written| < |s.sent| + TX_SIZE && s.sent == s.written[..|s.sent|]
    && s.wr == |s.written| % TX_SIZE && s.rd == |s.sent| % TX_SIZE
    && (forall i :: |s.sent| <= i < |s.written| ==> s.buf[i % TX_SIZE] == s.written[i])
    && (s.pc.StoredEmpty? || s.pc.StoredData? ==> s.buf[s.wr] == s.pc.b)
  }

  lemma FifoStore(s: Tx)
    requires Fifo(s)
    ensures Fifo(Next(s, Store))
  {
    var t := Next(s, Store);
    forall i | |t.sent| <= i < |t.written|
      ensures t.buf[i % TX_SIZE] == t.written[i]
    {
      SamePlace(i, |s.written|, TX_SIZE);
    }
  }

  lemma FifoAdvance(s: Tx)
    requires Fifo(s) && |Next(s, Advance).written| < |s.sent| + TX_SIZE
    ensures Fifo(Next(s, Advance))
  {
    WrapIsNext(|s.written|, TX_SIZE);
    var t := Next(s, Advance);
    forall i | |t.sent| <= i < |t.written|
      ensures t.buf[i % TX_SIZE] == t.written[i]
    {
      if i < |s.written| {
        assert s.buf[i % TX_SIZE] == s.written[i];
      }
    }
  }

  lemma FifoIsr(s: Tx)
    requires Fifo(s)
    ensures Fifo(Next(s, Isr))
  {
    SamePlace(|s.sent|, |s.written|, TX_SIZE);
    WrapIsNext(|s.sent|, TX_SIZE);
  }

  lemma FifoStep(s: Tx, a: Action)
    requires Fifo(s) && |Next(s, a).written| < |Next(s, a).sent| + TX_SIZE
    ensures Fifo(Next(s, a))
  {
    match a
    case Begin(b) =>
    case Enable =>
    case Store => FifoStore(s);
    case Advance => FifoAdvance(s);
    case Isr => FifoIsr(s);
  }

  /** In every interleaving that does not overfill the ring: the bytes sent, followed by the bytes
      queued, are the bytes written, in order. */
  lemma {:induction false} SentThenQueued(acts: seq<Action>)
    requires Fits(acts)
    ensures Fifo(Exec(acts))
    ensures Exec(acts).sent + Queued(Exec(acts)) == Exec(acts).written
  {
    if acts != [] {
      SentThenQueued(acts[..|acts| - 1]);
      FifoStep(Exec(acts[..|acts| - 1]), acts[|acts| - 1]);
    }
  }

  // ------------------------------------------------------------------ is the interrupt on?

  /** _write has seen data, or there is data to send, but nothing will switch the interrupt on. */
  ghost predicate Stalled(s: Tx) {
    !s.irq && (s.pc.SawData? || s.pc.StoredData? || (s.pc == Idle && |s.sent| < |s.written|))
  }

  /** The handler finds the ring empty and switches itself off after _write has seen it filled. */
  predicate DisablesTooLate(s: Tx, a: Action) {
    a == Isr && s.irq && s.rd == s.wr && (s.pc.SawData? || s.pc.StoredData?)
  }

  ghost predicate DisabledTooLate(acts: seq<Action>) {
    acts != [] && (DisabledTooLate(acts[..|acts| - 1]) || DisablesTooLate(Exec(acts[..|acts| - 1]), acts[|acts| - 1]))
  }

  lemma StallStep(s: Tx, a: Action)
    requires Fifo(s) && |Next(s, a).written| < |Next(s, a).sent| + TX_SIZE
    ensures Stalled(Next(s, a)) <==> Stalled(s) || DisablesTooLate(s, a)
    ensures Stalled(s) ==> Next(s, a).sent == s.sent
  {
    SamePlace(|s.sent|, |s.written|, TX_SIZE);
  }

  /** Exactly when the transmitter is stalled: some handler run switched the interrupt off between the
      test and the index update of a _write. */
  lemma {:induction false} StalledIff(acts: seq<Action>)
    requires Fits(acts)
    ensures Stalled(Exec(acts)) <==> DisabledTooLate(acts)
  {
    if acts != [] {
      var before := acts[..|acts| - 1];
      StalledIff(before);
      SentThenQueued(before);
      StallStep(Exec(before), acts[|acts| - 1]);
    }
  }

  /** The transmitter has been switched on at some point of `more`. */
  ghost predicate TurnedOn(acts: seq<Action>, more: seq<Action>) {
    more != [] && (TurnedOn(acts, more[..|more| - 1]) || Exec(acts + more).irq)
  }

  /** The _write of the n-th byte, counted from 1, is over. */
  predicate WriteOver(s: Tx, n: nat) {
    |s.written| > n || (|s.written| == n && s.pc != Advanced)
  }

  /** What a stalled transmitter can still be in: stalled; overfilled by one whole ring, which looks
      empty; or with the first byte after that stored, but not yet announced. n bytes have been sent. */
  ghost predicate Silent(s: Tx, n: nat) {
    && !s.irq && |s.sent| == n && Shape(s)
    && s.rd == n % TX_SIZE && s.wr == |s.written| % TX_SIZE
    && (|| (Stalled(s) && n <= |s.written| < n + TX_SIZE)
        || (|s.written| == n + TX_SIZE && (s.pc == Idle || s.pc.SawEmpty? || s.pc.StoredEmpty?)
            && (s.pc.StoredEmpty? ==> s.buf[s.wr] == s.pc.b))
        || (|s.written| == n + TX_SIZE + 1 && s.pc == Advanced && s.buf[s.rd] == s.written[n + TX_SIZE]))
  }

  lemma SilentStep(s: Tx, a: Action, n: nat)
    requires Silent(s, n)
    ensures var t := Next(s, a);
      && |t.written| >= |s.written|
      && !WriteOver(s, n + TX_SIZE + 1)
      && (t.irq <==> WriteOver(t, n + TX_SIZE + 1))
      && (!t.irq ==> Silent(t, n) && t.sent == s.sent)
  {
    WrapIsNext(|s.written|, TX_SIZE);
    if |s.written| < n + TX_SIZE {
      SamePlace(n, |s.written|, TX_SIZE);
    }
  }

  lemma WriteOverStays(s: Tx, a: Action, n: nat)
    requires Shape(s) && WriteOver(s, n)
    ensures WriteOver(Next(s, a), n)
  {
  }

  lemma StalledIsSilent(acts: seq<Action>)
    requires Fits(acts) && Stalled(Exec(acts))
    ensures var n := |Exec(acts).sent|; Silent(Exec(acts), n) && !WriteOver(Exec(acts), n + TX_SIZE + 1)
  {
    SentThenQueued(acts);
  }

  /** From a stall on, whatever is written and whatever interrupts come. */
  lemma {:induction false} SilentUntilWriteOver(acts: seq<Action>, more: seq<Action>)
    requires Fits(acts) && Stalled(Exec(acts))
    ensures var s, n := Exec(acts + more), |Exec(acts).sent|;
      && (TurnedOn(acts, more) <==> WriteOver(s, n + TX_SIZE + 1))
      && (!TurnedOn(acts, more) ==> Silent(s, n) && s.sent == Exec(acts).sent)
    decreases |more|
  {
    var n := |Exec(acts).sent|;
    if more == [] {
      StalledIsSilent(acts);
      assert acts + more == acts;
    } else {
      var init, last := more[..|more| - 1], more[|more| - 1];
      assert acts + more == acts + init + [last];
      ExecOne(acts + init, last);
      SilentUntilWriteOver(acts, init);
      if TurnedOn(acts, init) {
        WriteOverStays(Exec(acts + init), last, n + TX_SIZE + 1);
      } else {
        SilentStep(Exec(acts + init), last, n);
      }
    }
  }

  /** How long a stall lasts, exactly: no byte is sent until the ring has been filled up, so that it
      looks empty, and the _write of one more byte, the 8001st that was not sent, is over. That one
      switches the transmitter on. */
  lemma StallLastsIff(acts: seq<Action>, more: seq<Action>)
    requires Fits(acts) && Stalled(Exec(acts))
    ensures TurnedOn(acts, more) <==> WriteOver(Exec(acts + more), |Exec(acts).sent| + 8001)
    ensures !TurnedOn(acts, more) ==> !Exec(acts + more).irq && Exec(acts + more).sent == Exec(acts).sent
  {
    SilentUntilWriteOver(acts, more);
  }

  /** And what it costs: the next byte sent is that last one; the 8000 before it are skipped. */
  lemma StallSkipsRing(acts: seq<Action>, more: seq<Action>, a: Action)
    requires Fits(acts) && Stalled(Exec(acts))
    requires !TurnedOn(acts, more) && TurnedOn(acts, more + [a])
    ensures a == Enable
    ensures var n, s := |Exec(acts).sent|, Exec(acts + (more + [a]));
      && |s.written| == n + 8001
      && Next(s, Isr).sent == Exec(acts).sent + [s.written[n + 8000]]
  {
    var n := |Exec(acts).sent|;
    SilentUntilWriteOver(acts, more);
    assert (more + [a])[..|more|] == more;
    assert acts + (more + [a]) == acts + more + [a];
    ExecOne(acts + more, a);
    SilentEnds(Exec(acts + more), a, n);
  }

  lemma SilentEnds(s: Tx, a: Action, n: nat)
    requires Silent(s, n) && Next(s, a).irq
    ensures var t := Next(s, a);
      && a == Enable && |t.written| == n + TX_SIZE + 1
      && Next(t, Isr).sent == s.sent + [t.written[n + TX_SIZE]]
  {
    SilentStep(s, a, n);
    SamePlace(n + TX_SIZE, n + TX_SIZE + 1, TX_SIZE);
  }

  function WholeWrites(bytes: seq<byte>): seq<Action> {
    if bytes == [] then []
    else WholeWrites(bytes[..|bytes| - 1]) + [Begin(bytes[|bytes| - 1]), Store, Advance, Enable]
  }

  lemma ExecFour(acts: seq<Action>, b: byte)
    ensures Exec(acts + [Begin(b), Store, Advance, Enable]) == WriteByte(Exec(acts), b)
  {
    var all := acts + [Begin(b), Store, Advance, Enable];
    ExecOne(acts, Begin(b));
    ExecOne(acts + [Begin(b)], Store);
    ExecOne(acts + [Begin(b)] + [Store], Advance);
    ExecOne(acts + [Begin(b)] + [Store] + [Advance], Enable);
    assert all == acts + [Begin(b)] + [Store] + [Advance] + [Enable];
  }

  lemma {:induction false} WholeWritesAppend(acts: seq<Action>, bytes: seq<byte>)
    requires Exec(acts).pc == Idle
    ensures var s := Exec(acts + WholeWrites(bytes));
      s.pc == Idle && s.written == Exec(acts).written + bytes
  {
    if bytes == [] {
      assert acts + WholeWrites(bytes) == acts;
    } else {
      var first, b := bytes[..|bytes| - 1], bytes[|bytes| - 1];
      WholeWritesAppend(acts, first);
      ExecFour(acts + WholeWrites(first), b);
      assert acts + WholeWrites(bytes) == acts + WholeWrites(first) + [Begin(b), Store, Advance, Enable];
      assert bytes == first + [b];
    }
  }

  /** So uninterrupted calls of _write get a stalled transmitter going again exactly if, together with
      what is queued, there are more than 8000 bytes. */
  lemma RefillRevivesIff(acts: seq<Action>, bytes: seq<byte>)
    requires Fits(acts) && Stalled(Exec(acts)) && Exec(acts).pc == Idle
    ensures TurnedOn(acts, WholeWrites(bytes)) <==> |Queued(Exec(acts))| + |bytes| > 8000
  {
    SentThenQueued(acts);
    WholeWritesAppend(acts, bytes);
    StallLastsIff(acts, WholeWrites(bytes));
  }

  lemma ExecOne(acts: seq<Action>, a: Action)
    ensures Exec(acts + [a]) == Next(Exec(acts), a)
    ensures Fits(acts + [a]) <==> Fits(acts) && |Exec(acts + [a]).written| < |Exec(acts + [a]).sent| + TX_SIZE
  {
    assert (acts + [a])[..|acts|] == acts;
  }

  function StallingRun(a: byte, b: byte): seq<Action> {
    [Begin(a), Store, Advance, Enable, Begin(b), Isr, Isr, Store, Advance]
  }

  /** The states of that run. */
  function Stage(i: nat, a: byte, b: byte): Tx
    requires i <= 9
  {
    var empty := Start();
    var first := empty.(buf := empty.buf[0 := a], wr := 1, written := [a]);
    match i
    case 0 => empty
    case 1 => empty.(pc := SawEmpty(a))
    case 2 => empty.(buf := first.buf, pc := StoredEmpty(a))
    case 3 => first.(pc := Advanced)
    case 4 => first.(irq := true)
    case 5 => first.(irq := true, pc := SawData(b))
    case 6 => first.(rd := 1, sent := [a], irq := true, pc := SawData(b))
    case 7 => first.(rd := 1, sent := [a], pc := SawData(b))
    case 8 => first.(buf := first.buf[1 := b], rd := 1, sent := [a], pc := StoredData(b))
    case 9 => first.(buf := first.buf[1 := b], wr := 2, rd := 1, written := [a, b], sent := [a])
  }

  lemma StageStep(i: nat, a: byte, b: byte)
    requires i < 9
    ensures Next(Stage(i, a, b), StallingRun(a, b)[i]) == Stage(i + 1, a, b)
  {
    assert [] + [a] == [a] && [a] + [b] == [a, b];
  }

  lemma {:induction false} StageReached(i: nat, a: byte, b: byte)
    requires i <= 9
    ensures Exec(StallingRun(a, b)[..i]) == Stage(i, a, b) && Fits(StallingRun(a, b)[..i])
  {
    if i > 0 {
      StageReached(i - 1, a, b);
      StageStep(i - 1, a, b);
      ExecOne(StallingRun(a, b)[..i - 1], StallingRun(a, b)[i - 1]);
      assert StallingRun(a, b)[..i] == StallingRun(a, b)[..i - 1] + [StallingRun(a, b)[i - 1]];
    }
  }

  /** It can happen with two bytes: the first is sent, and the ring found empty, while the second is
      on its way into it. */
  lemma StallIsReachable(a: byte, b: byte)
    ensures var run := StallingRun(a, b);
      Fits(run) && Stalled(Exec(run)) && Exec(run).sent == [a] && Queued(Exec(run)) == [b]
  {
    StageReached(9, a, b);
    assert StallingRun(a, b)[..9] == StallingRun(a, b);
  }

  // ------------------------------------------------------------------ with _write not interrupted

  /** _write as a whole, from the state it is called in. */
  function WriteByte(s: Tx, b: byte): (t: Tx)
    requires |s.buf| == TX_SIZE && s.wr < TX_SIZE && s.rd < TX_SIZE
    ensures |t.buf| == TX_SIZE && t.wr < TX_SIZE && t.rd < TX_SIZE
  {
    Next(Next(Next(Next(s, Begin(b)), Store), Advance), Enable)
  }

  /** Between calls: in order, and a queue that is not empty has its interrupt on. */
  ghost predicate Live(s: Tx) {
    Fifo(s) && s.pc == Idle && (|s.sent| < |s.written| ==> s.irq)
  }

  lemma WholeWriteKeepsLive(s: Tx, b: byte)
    requires Live(s) && |s.written| + 1 < |s.sent| + TX_SIZE
    ensures Live(WriteByte(s, b)) && WriteByte(s, b).written == s.written + [b] && WriteByte(s, b).sent == s.sent
  {
    SamePlace(|s.sent|, |s.written|, TX_SIZE);
    var s1 := Next(s, Begin(b));
    FifoStep(s, Begin(b));
    FifoStep(s1, Store);
    var s2 := Next(s1, Store);
    FifoStep(s2, Advance);
    FifoStep(Next(s2, Advance), Enable);
  }

  lemma IsrKeepsLive(s: Tx)
    requires Live(s)
    ensures Live(Next(s, Isr)) && Next(s, Isr).written == s.written
    ensures |Next(s, Isr).sent| == if |s.sent| < |s.written| then |s.sent| + 1 else |s.sent|
    ensures Next(s, Isr).irq <==> s.irq && |s.sent| < |s.written|
  {
    SamePlace(|s.sent|, |s.written|, TX_SIZE);
    FifoStep(s, Isr);
  }

  function Interrupts(s: Tx, n: nat): (t: Tx)
    requires |s.buf| == TX_SIZE && s.wr < TX_SIZE && s.rd < TX_SIZE
    ensures |t.buf| == TX_SIZE && t.wr < TX_SIZE && t.rd < TX_SIZE
    decreases n
  {
    if n == 0 then s else Interrupts(Next(s, Isr), n - 1)
  }

  /** Then every byte gets out: as many interrupts as there are bytes queued send them all, and the next
      one switches the interrupt off. */
  lemma {:induction false} InterruptsDrain(s: Tx)
    requires Live(s)
    ensures var n := |s.written| - |s.sent|;
      Interrupts(s, n).sent == s.written && !Interrupts(s, n + 1).irq && Live(Interrupts(s, n + 1))
    decreases |s.written| - |s.sent|
  {
    IsrKeepsLive(s);
    if |s.sent| < |s.written| {
      InterruptsDrain(Next(s, Isr));
    } else {
      assert Interrupts(s, 1) == Interrupts(Next(s, Isr), 0);
    }
  }

  // ------------------------------------------------------------------ the real ring

  class TransmitRing {
    const bufDbg: array<byte>
    var indexWrBufMes: nat
    var indexRdBufMes: nat
    var txIrq: bool
    ghost var written: seq<byte>
    ghost var sent: seq<byte>

    ghost predicate Valid()
      reads this, bufDbg
    {
      bufDbg.Length == TX_SIZE && indexWrBufMes < TX_SIZE && indexRdBufMes < TX_SIZE
    }

    ghost function View(): Tx
      reads this, bufDbg
    {
      Tx(bufDbg[..], indexWrBufMes, indexRdBufMes, txIrq, Idle, written, sent)
    }

    constructor ()
      ensures Valid() && fresh(bufDbg) && View() == Start()
    {
      bufDbg := new byte[TX_SIZE](_ => 0);
      indexWrBufMes, indexRdBufMes, txIrq, written, sent := 0, 0, false, [], [];
      new;
      assert bufDbg[..] == Start().buf;
    }

    /** _write: one byte of the data is taken, and that is what is returned. */
    method Write(data: seq<byte>) returns (n: nat)
      requires Valid() && data != []
      modifies this, bufDbg
      ensures Valid() && n == 1 && View() == WriteByte(old(View()), data[0])
    {
      if indexRdBufMes == indexWrBufMes {
        bufDbg[indexWrBufMes] := data[0];
        if indexWrBufMes < TX_SIZE - 1 {
          indexWrBufMes := indexWrBufMes + 1;
        } else {
          indexWrBufMes := 0;
        }
        txIrq := true;
      } else {
        bufDbg[indexWrBufMes] := data[0];
        if indexWrBufMes < TX_SIZE - 1 {
          indexWrBufMes := indexWrBufMes + 1;
        } else {
          indexWrBufMes := 0;
        }
      }
      written := written + [data[0]];
      return 1;
    }

    /** The transmit half of DBG_UART_IRQHandler. */
    method TransmitInterrupt() returns (tdr: Option<byte>)
      requires Valid()
      modifies this
      ensures Valid() && View() == Next(old(View()), Isr)
      ensures sent == old(sent) + if tdr.Some? then [tdr.value] else []
    {
      tdr := None;
      if txIrq {
        if indexRdBufMes == indexWrBufMes {
          txIrq := false;
        } else {
          tdr := Some(bufDbg[indexRdBufMes]);
          sent := sent + [bufDbg[indexRdBufMes]];
          indexRdBufMes := indexRdBufMes + 1;
          if indexRdBufMes >= TX_SIZE {
            indexRdBufMes := 0;
          }
        }
      }
    }
  }
}

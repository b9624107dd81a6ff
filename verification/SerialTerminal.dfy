/**
  The terminal as a whole: the receive interrupt fills a ring of 50 bytes, terminal_cntrl takes them
  out and feeds the parser. Interrupts may come between taking a byte and moving the read index.
 */
module SerialTerminal {
  import opened Bytes
  import opened Rings
  import opened Commands
  import opened Terminal
  import opened TerminalSpec

  const RX_SIZE := 50

  /** buf_cmd with its indices; feeding: the byte at rd has been processed, rd has not moved yet.
      received and taken are histories: everything that came in, and how much of it rd has passed. */
  datatype Link = Link(buf: seq<char>, wr: nat, rd: nat, feeding: bool, parser: Parser, received: seq<char>, taken: nat)

  datatype Action = Receive(c: char) | Process | Advance

  ghost predicate Shape(reg: Registry, l: Link) {
    |l.buf| == RX_SIZE && l.wr < RX_SIZE && l.rd < RX_SIZE && WellFormed(reg, l.parser)
  }

  function PowerUp(): Link {
    Link(seq(RX_SIZE, _ => '\0'), 0, 0, false, Seeking(seq(MAX_PARAM, _ => Param(false, Unset)), []), [], 0)
  }

  ghost function Next(reg: Registry, sc: Scanner, l: Link, a: Action): (m: Link)
    requires Shape(reg, l)
    ensures Shape(reg, m)
  {
    match a
    case Receive(c) => l.(buf := l.buf[l.wr := c], wr := Wrap(l.wr, RX_SIZE), received := l.received + [c])
    case Process =>
      if l.feeding || l.wr == l.rd then l else l.(parser := Feed(reg, sc, l.parser, l.buf[l.rd]), feeding := true)
    case Advance =>
      if !l.feeding then l else l.(rd := Wrap(l.rd, RX_SIZE), feeding := false, taken := l.taken + 1)
  }

  ghost function Exec(reg: Registry, sc: Scanner, acts: seq<Action>): (l: Link)
    ensures Shape(reg, l)
  {
    if acts == [] then PowerUp() else Next(reg, sc, Exec(reg, sc, acts[..|acts| - 1]), acts[|acts| - 1])
  }

  /** At no point are as many as 50 bytes unread. */
  ghost predicate KeepsUp(reg: Registry, sc: Scanner, acts: seq<Action>) {
    acts != [] ==>
      KeepsUp(reg, sc, acts[..|acts| - 1]) && |Exec(reg, sc, acts).received| < Exec(reg, sc, acts).taken + 50
  }

  /** How many bytes the parser has seen. */
  function Fed(l: Link): nat {
    l.taken + if l.feeding then 1 else 0
  }

  /** The indices are the two counts, cut to the size of the ring. */
  predicate Counted(l: Link) {
    Fed(l) <= |l.received| && l.wr == |l.received| % RX_SIZE && l.rd == l.taken % RX_SIZE
  }

  ghost predicate InOrder(reg: Registry, sc: Scanner, l: Link) {
    && Shape(reg, l)
    && Counted(l) && |l.received| < l.taken + RX_SIZE
    && (forall i :: l.taken <= i < |l.received| ==> l.buf[i % RX_SIZE] == l.received[i])
    && l.parser == FeedAll(reg, sc, PowerUp().parser, l.received[..Fed(l)])
  }

  lemma ReceiveInOrder(reg: Registry, sc: Scanner, l: Link, c: char)
    requires InOrder(reg, sc, l) && |l.received| + 1 < l.taken + RX_SIZE
    ensures InOrder(reg, sc, Next(reg, sc, l, Receive(c)))
  {
    var m := Next(reg, sc, l, Receive(c));
    WrapIsNext(|l.received|, RX_SIZE);
    forall i | m.taken <= i < |m.received|
      ensures m.buf[i % RX_SIZE] == m.received[i]
    {
      SamePlace(i, |l.received|, RX_SIZE);
    }
    assert m.received[..Fed(m)] == l.received[..Fed(l)];
  }

  lemma ProcessInOrder(reg: Registry, sc: Scanner, l: Link)
    requires InOrder(reg, sc, l)
    ensures InOrder(reg, sc, Next(reg, sc, l, Process))
  {
    SamePlace(l.taken, |l.received|, RX_SIZE);
    if !l.feeding && l.wr != l.rd {
      var seen, c := l.received[..l.taken], l.received[l.taken];
      assert l.received[..l.taken + 1] == seen + [c];
      FeedConcat(reg, sc, PowerUp().parser, seen, [c]);
      FeedLast(reg, sc, l.parser, c);
    }
  }

  /** Every interrupt, and every half of a poll step, keeps the bytes in order. */
  lemma StepInOrder(reg: Registry, sc: Scanner, l: Link, a: Action)
    requires InOrder(reg, sc, l) && |Next(reg, sc, l, a).received| < Next(reg, sc, l, a).taken + RX_SIZE
    ensures InOrder(reg, sc, Next(reg, sc, l, a))
  {
    match a
    case Receive(c) => ReceiveInOrder(reg, sc, l, c);
    case Process => ProcessInOrder(reg, sc, l);
    case Advance => WrapIsNext(l.taken, RX_SIZE);
  }

  lemma {:induction false} AlwaysInOrder(reg: Registry, sc: Scanner, acts: seq<Action>)
    requires KeepsUp(reg, sc, acts)
    ensures InOrder(reg, sc, Exec(reg, sc, acts))
  {
    if acts == [] {
      assert PowerUp().received[..0] == "";
    } else {
      AlwaysInOrder(reg, sc, acts[..|acts| - 1]);
      StepInOrder(reg, sc, Exec(reg, sc, acts[..|acts| - 1]), acts[|acts| - 1]);
    }
  }

  /** End to end, for every interleaving of interrupts and polls that keeps up: when the poll loop finds
      the ring empty and no line is open, the handlers called and messages printed are those the line
      language gives to the bytes received. */
  lemma TerminalMeansItsLines(reg: Registry, sc: Scanner, acts: seq<Action>)
    requires KeepsUp(reg, sc, acts)
    requires var l := Exec(reg, sc, acts); !l.feeding && l.rd == l.wr && Complete(l.received)
    ensures var l := Exec(reg, sc, acts);
      var (events, prms) := StreamMeaning(reg, sc, PowerUp().parser.prms, l.received);
      l.parser.events == events && l.parser.prms == prms
  {
    var l := Exec(reg, sc, acts);
    AlwaysInOrder(reg, sc, acts);
    SamePlace(l.taken, |l.received|, RX_SIZE);
    assert l.received[..|l.received|] == l.received;
    StreamParses(reg, sc, PowerUp().parser.prms, [], l.received);
    assert [] + StreamMeaning(reg, sc, PowerUp().parser.prms, l.received).0
        == StreamMeaning(reg, sc, PowerUp().parser.prms, l.received).0;
  }

  /** The same for one command line, down to the handler: it is called exactly if the tokens are
      acceptable, once, and with the values supplied. */
  lemma TypedLine(reg: Registry, sc: Scanner, acts: seq<Action>, name: string, args: string, cmd: nat)
    requires KeepsUp(reg, sc, acts) && Plain(name) && NoEnd(args) && NoNul(args)
    requires Lookup(reg, CString(Kept(name))) == Some(cmd) && NumParams(reg[cmd].types) > 0
    requires var l := Exec(reg, sc, acts);
      !l.feeding && l.rd == l.wr && l.received == ['>'] + (name + [' '] + args + ['\r'])
    ensures var events, types, toks := Exec(reg, sc, acts).parser.events, reg[cmd].types, Tokens(args);
      && |events| == 1
      && (events[0].Called? <==> Acceptable(sc, types, toks))
      && (events[0].Called? ==> events[0].cmd == cmd
                                && SuppliedExactly(sc, types, PowerUp().parser.prms, toks, events[0].prms)
                                && HandedOver(sc, types, toks, events[0].prms))
  {
    AlwaysInOrder(reg, sc, acts);
    NothingUnread(reg, sc, Exec(reg, sc, acts));
    CommandLine(reg, sc, PowerUp().parser.prms, [], name, args, cmd);
  }

  /** Without an open-line condition: what has been done at any moment is what the parser does on the
      bytes it has been fed, which are the first ones received. */
  lemma TerminalFollowsParser(reg: Registry, sc: Scanner, acts: seq<Action>)
    requires KeepsUp(reg, sc, acts)
    ensures var l := Exec(reg, sc, acts);
      Fed(l) <= |l.received| && l.parser == FeedAll(reg, sc, PowerUp().parser, l.received[..Fed(l)])
  {
    AlwaysInOrder(reg, sc, acts);
  }

  /** The indices keep counting when the ring is overrun as well. */
  lemma {:induction false} AlwaysCounted(reg: Registry, sc: Scanner, acts: seq<Action>)
    ensures Counted(Exec(reg, sc, acts))
  {
    if acts != [] {
      AlwaysCounted(reg, sc, acts[..|acts| - 1]);
      var l := Exec(reg, sc, acts[..|acts| - 1]);
      WrapIsNext(|l.received|, RX_SIZE);
      WrapIsNext(l.taken, RX_SIZE);
    }
  }

  /** Two positions share a place exactly if they are whole rounds apart. */
  lemma RoundsApart(i: nat, j: nat)
    requires i <= j
    ensures i % RX_SIZE == j % RX_SIZE <==> (j - i) % RX_SIZE == 0
  {
    var q, q', d := i / RX_SIZE, j / RX_SIZE, (j - i) / RX_SIZE;
    assert RX_SIZE * (q' - q - d) == i % RX_SIZE - j % RX_SIZE + (j - i) % RX_SIZE;
  }

  /** Why 49 is the limit: in every run, overrun or not, the poll loop finds nothing to do exactly if the
      number of unread bytes is a multiple of 50. */
  lemma FullLooksEmptyIff(reg: Registry, sc: Scanner, acts: seq<Action>)
    requires !Exec(reg, sc, acts).feeding
    ensures var l := Exec(reg, sc, acts);
      l.taken <= |l.received| && (Next(reg, sc, l, Process) == l <==> (|l.received| - l.taken) % 50 == 0)
  {
    AlwaysCounted(reg, sc, acts);
    var l := Exec(reg, sc, acts);
    RoundsApart(l.taken, |l.received|);
  }

  // ------------------------------------------------------------------ the real ring

  class ReceiveRing {
    const bufCmd: array<char>
    var indexWrBufCmd: nat
    var indexRdBufCmd: nat
    const terminal: CommandTerminal
    ghost var received: seq<char>
    ghost var taken: nat

    ghost predicate Valid()
      reads this, bufCmd, terminal, terminal.dataPrmCmd, terminal.arPrm
    {
      && bufCmd.Length == RX_SIZE && indexWrBufCmd < RX_SIZE && indexRdBufCmd < RX_SIZE
      && bufCmd != terminal.dataPrmCmd
      && terminal.Valid()
    }

    ghost function View(): Link
      requires Valid()
      reads this, bufCmd, terminal, terminal.dataPrmCmd, terminal.arPrm
    {
      Link(bufCmd[..], indexWrBufCmd, indexRdBufCmd, false, terminal.View(), received, taken)
    }

    constructor (table: CommandTable, sc: Scanner)
      requires table.Valid() && table.AllRegistered()
      ensures Valid() && View() == PowerUp() && terminal.reg == table.Registered() && terminal.sc == sc
      ensures fresh(bufCmd) && fresh(terminal) && fresh(terminal.dataPrmCmd) && fresh(terminal.arPrm)
    {
      var t := new CommandTerminal(table, sc);
      bufCmd := new char[RX_SIZE](_ => '\0');
      indexWrBufCmd, indexRdBufCmd, terminal, received, taken := 0, 0, t, [], 0;
      new;
      assert bufCmd[..] == PowerUp().buf;
    }

    /** The receive half of DBG_UART_IRQHandler. */
    method ReceiveInterrupt(rdr: char)
      requires Valid()
      modifies this`indexWrBufCmd, this`received, bufCmd
      ensures Valid() && View() == Next(terminal.reg, terminal.sc, old(View()), Receive(rdr))
    {
      bufCmd[indexWrBufCmd] := rdr;
      received := received + [rdr];
      indexWrBufCmd := indexWrBufCmd + 1;
      if indexWrBufCmd >= RX_SIZE {
        indexWrBufCmd := 0;
      }
    }

    /** One turn of the loop: a byte is processed and the read index moves on. */
    method TakeByte()
      requires Valid() && indexWrBufCmd != indexRdBufCmd
      modifies this`indexRdBufCmd, this`taken, terminal, terminal.dataPrmCmd, terminal.arPrm
      ensures Valid() && View() == Turned(terminal.reg, terminal.sc, old(View()))
    {
      terminal.TerminalDataProcessing(bufCmd[indexRdBufCmd]);
      taken := taken + 1;
      indexRdBufCmd := indexRdBufCmd + 1;
      if indexRdBufCmd >= RX_SIZE {
        indexRdBufCmd := 0;
      }
    }

    /** terminal_cntrl, not interrupted: everything unread is processed. */
    method TerminalCntrl()
      requires Valid() && InOrder(terminal.reg, terminal.sc, View())
      modifies this, terminal, terminal.dataPrmCmd, terminal.arPrm
      ensures Valid() && InOrder(terminal.reg, terminal.sc, View())
      ensures received == old(received) && taken == |received|
      ensures terminal.View() == FeedAll(terminal.reg, terminal.sc, PowerUp().parser, received)
    {
      while indexWrBufCmd != indexRdBufCmd
        invariant Valid() && InOrder(terminal.reg, terminal.sc, View())
        invariant received == old(received)
        decreases |received| - taken
      {
        TurnInOrder(terminal.reg, terminal.sc, View());
        TakeByte();
      }
      NothingUnread(terminal.reg, terminal.sc, View());
    }
  }

  /** A turn of the poll loop: both halves of a step. */
  ghost function Turned(reg: Registry, sc: Scanner, l: Link): Link
    requires Shape(reg, l)
  {
    Next(reg, sc, Next(reg, sc, l, Process), Advance)
  }

  lemma TurnInOrder(reg: Registry, sc: Scanner, l: Link)
    requires InOrder(reg, sc, l) && !l.feeding && l.wr != l.rd
    ensures InOrder(reg, sc, Turned(reg, sc, l))
    ensures Turned(reg, sc, l).received == l.received && Turned(reg, sc, l).taken == l.taken + 1 <= |l.received|
  {
    SamePlace(l.taken, |l.received|, RX_SIZE);
    StepInOrder(reg, sc, l, Process);
    StepInOrder(reg, sc, Next(reg, sc, l, Process), Advance);
  }

  lemma NothingUnread(reg: Registry, sc: Scanner, l: Link)
    requires InOrder(reg, sc, l) && !l.feeding && l.wr == l.rd
    ensures l.taken == |l.received| && l.parser == FeedAll(reg, sc, PowerUp().parser, l.received)
  {
    SamePlace(l.taken, |l.received|, RX_SIZE);
    assert l.received[..|l.received|] == l.received;
  }
}

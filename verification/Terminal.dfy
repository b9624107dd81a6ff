/**
  The byte-driven command parser (terminal_data_processing), first as a step on values, then as the
  class whose buffer, indices and parameter array it really works on.
 */
module Terminal {
  import opened Commands

  datatype Phase = FindCmd | PrcCmd | FindPrm | PrcPrm

  /** What the parser does to the outside: call a handler with the parameters, or print a message. */
  datatype Event = Called(cmd: nat, prms: seq<Param>) | Reported(status: Status)

  /** text is the part of the name or token that is kept; cmd and k (index_param) matter in the last
      two phases. */
  datatype Parser = Parser(phase: Phase, text: string, cmd: nat, k: nat, prms: seq<Param>, events: seq<Event>)

  predicate EndsLine(ch: char) {
    ch == '\r' || ch == '\n' || ch == '>'
  }

  function Preset(prms: seq<Param>): (r: seq<Param>)
    ensures |r| == |prms|
  {
    seq(|prms|, i requires 0 <= i < |prms| => prms[i].(flagDef := true))
  }

  function Append(text: string, ch: char): string {
    if |text| < TEXT_MAX then text + [ch] else text
  }

  function Seeking(prms: seq<Param>, events: seq<Event>): Parser {
    Parser(FindCmd, "", 0, 0, prms, events)
  }

  function Naming(text: string, prms: seq<Param>, events: seq<Event>): Parser {
    Parser(PrcCmd, text, 0, 0, prms, events)
  }

  /** After a line end: '>' also begins the next command. */
  function AfterEnd(ch: char, prms: seq<Param>, events: seq<Event>): Parser {
    if ch == '>' then Naming("", Preset(prms), events) else Seeking(prms, events)
  }

  function Outcome(cmd: nat, st: Status, prms: seq<Param>): Event {
    if st == Norm then Called(cmd, prms) else Reported(st)
  }

  predicate WellFormed(reg: Registry, p: Parser) {
    && |p.prms| == MAX_PARAM && |p.text| <= TEXT_MAX
    && (p.phase == FindPrm || p.phase == PrcPrm ==> p.cmd < |reg| && p.k < MAX_PARAM)
  }

  /** The parser on one byte. */
  function Feed(reg: Registry, sc: Scanner, p: Parser, ch: char): (q: Parser)
    requires WellFormed(reg, p)
    ensures WellFormed(reg, q)
  {
    match p.phase
    case FindCmd =>
      if ch == '>' then Naming("", Preset(p.prms), p.events) else p
    case PrcCmd =>
      if ch != ' ' && !EndsLine(ch) then p.(text := Append(p.text, ch))
      else
        var found := Lookup(reg, CString(p.text));
        var event := if found.Some? then Called(found.value, p.prms) else Reported(IncorrectCmd);
        if EndsLine(ch) then AfterEnd(ch, p.prms, p.events + [event])
        else if found.None? then Seeking(p.prms, p.events + [event])
        else if NumParams(reg[found.value].types) > 0 then Parser(FindPrm, "", found.value, 0, p.prms, p.events)
        else p.(events := p.events + [event])
    case FindPrm =>
      if ch == ' ' then p
      else if EndsLine(ch) then AfterEnd(ch, p.prms, p.events + [Called(p.cmd, p.prms)])
      else p.(phase := PrcPrm, text := [ch])
    case PrcPrm =>
      if ch != ' ' && !EndsLine(ch) then p.(text := Append(p.text, ch))
      else
        var (st, prm) := Convert(sc, reg[p.cmd].types[p.k], CString(p.text), p.prms[p.k]);
        var prms := p.prms[p.k := prm];
        if ch == ' ' && p.k < MAX_PARAM - 1 && st == Norm then Parser(FindPrm, "", p.cmd, p.k + 1, prms, p.events)
        else if ch == ' ' then Seeking(prms, p.events + [Outcome(p.cmd, st, prms)])
        else AfterEnd(ch, prms, p.events + [Outcome(p.cmd, st, prms)])
  }

  function FeedAll(reg: Registry, sc: Scanner, p: Parser, s: string): (q: Parser)
    requires WellFormed(reg, p)
    ensures WellFormed(reg, q)
    decreases |s|
  {
    if s == "" then p else FeedAll(reg, sc, Feed(reg, sc, p, s[0]), s[1..])
  }

  lemma {:induction false} FeedConcat(reg: Registry, sc: Scanner, p: Parser, s: string, t: string)
    requires WellFormed(reg, p)
    ensures FeedAll(reg, sc, p, s + t) == FeedAll(reg, sc, FeedAll(reg, sc, p, s), t)
    decreases |s|
  {
    if s == "" {
      assert s + t == t;
    } else {
      assert (s + t)[1..] == s[1..] + t;
      FeedConcat(reg, sc, Feed(reg, sc, p, s[0]), s[1..], t);
    }
  }

  // ------------------------------------------------------------------ the real parser

  class CommandTerminal {
    const reg: Registry
    const sc: Scanner
    var fsm: Phase
    var indexDat: nat
    var indexParam: nat
    var indexCmd: nat
    var numCmdParam: nat
    var status: Status
    const dataPrmCmd: array<char>
    const arPrm: array<Param>
    var events: seq<Event>

    /** What holds before and after every byte: the write index stays inside the buffer with room for
        the NUL, index_param inside the array, and a parser that waits for parameters knows a
        registered command, with STAT_NORM while it is between two of them. */
    ghost predicate Valid()
      reads this, dataPrmCmd, arPrm
    {
      && dataPrmCmd.Length == MAX_SIZE_DATA && arPrm.Length == MAX_PARAM
      && indexDat <= TEXT_MAX && indexParam < MAX_PARAM
      && (fsm == FindPrm || fsm == PrcPrm ==> indexCmd < |reg|)
      && (fsm == FindPrm ==> status == Norm)
    }

    ghost function View(): Parser
      requires Valid()
      reads this, dataPrmCmd, arPrm
    {
      Parser(fsm,
             if fsm == PrcCmd || fsm == PrcPrm then dataPrmCmd[..indexDat] else "",
             if fsm == FindPrm || fsm == PrcPrm then indexCmd else 0,
             if fsm == FindPrm || fsm == PrcPrm then indexParam else 0,
             arPrm[..], events)
    }

    constructor (table: CommandTable, sc: Scanner)
      requires table.Valid() && table.AllRegistered()
      ensures Valid() && this.reg == table.Registered() && this.sc == sc && fresh(dataPrmCmd) && fresh(arPrm)
      ensures View() == Seeking(seq(MAX_PARAM, _ => Param(false, Unset)), [])
    {
      this.reg, this.sc, fsm := table.Registered(), sc, FindCmd;
      indexDat, indexParam, indexCmd, numCmdParam, status := 0, 0, 0, 0, Norm;
      dataPrmCmd := new char[MAX_SIZE_DATA](_ => '\0');
      arPrm := new Param[MAX_PARAM](_ => Param(false, Unset));
      events := [];
      new;
      assert arPrm[..] == seq(MAX_PARAM, _ => Param(false, Unset));
    }

    /** strcmp on the buffer, entry by entry. */
    method ScanCmd() returns (r: nat)
      requires Valid()
      modifies this`status
      ensures match Lookup(reg, CString(dataPrmCmd[..]))
        case Some(i) => r == i && status == Norm
        case None => r == NO_COMMAND && status == old(status)
    {
      var i := 0;
      while i < |reg|
        invariant i <= |reg|
        invariant forall j :: 0 <= j < i ==> reg[j].name != CString(dataPrmCmd[..])
      {
        if reg[i].name == CString(dataPrmCmd[..]) {
          status := Norm;
          return i;
        }
        i := i + 1;
      }
      return NO_COMMAND;
    }

    method GetNumCmdParam(cmd: nat) returns (n: nat)
      requires cmd < |reg|
      ensures n == NumParams(reg[cmd].types)
    {
      n := 0;
      for i := 0 to MAX_PARAM
        invariant n == i && forall j :: 0 <= j < i ==> reg[cmd].types[j] != VrNone
      {
        if reg[cmd].types[i] == VrNone {
          return;
        }
        n := n + 1;
      }
    }

    /** get_parametr_cmd on the buffer and on parameter i: the range checks with the constants of the
        source decide what fits the type. */
    method GetParametrCmd(t: ParamType, i: nat) returns (st: Status)
      requires dataPrmCmd.Length == MAX_SIZE_DATA && arPrm.Length == MAX_PARAM && i < MAX_PARAM
      requires exists n :: 0 <= n < MAX_SIZE_DATA && dataPrmCmd[n] == '\0'
      modifies arPrm
      ensures var (st', prm) := Convert(sc, t, CString(dataPrmCmd[..]), old(arPrm[i]));
        st == st' && arPrm[..] == old(arPrm[..])[i := prm]
      // An empty text is the default; any other text succeeds exactly with the value it stands for, and an
      // error leaves the old value.
      ensures var s, was := CString(dataPrmCmd[..]), old(arPrm[i]);
        && (s == "" ==> st == Norm && arPrm[i] == Param(true, was.value))
        && (s != "" && st == Norm ==> !arPrm[i].flagDef && StandsFor(sc, t, s, arPrm[i].value))
        && (s != "" ==> forall v :: StandsFor(sc, t, s, v) ==> st == Norm && arPrm[i] == Param(false, v))
        && (s != "" ==> (st == Overflow <==> TooBig(sc, t, s)))
        && (st != Norm ==> (st == Overflow || st == IncorrectParam) && arPrm[i] == Param(false, was.value))
    {
      ConvertedFacts(sc, t, CString(dataPrmCmd[..]));
      var data := CString(dataPrmCmd[..]);
      CStringStart(dataPrmCmd[..]);
      arPrm[i] := arPrm[i].(flagDef := false);
      if dataPrmCmd[0] == '\0' {
        arPrm[i] := arPrm[i].(flagDef := true);
        return Norm;
      }
      match t {
        case VrUint8 | VrUint16 | VrUint32 =>
          var scanned := sc.unsigned(data);
          if scanned.None? {
            return IncorrectParam;
          }
          var v := scanned.value;
          TypeBounds(t, v);
          if (t == VrUint8 && v > 0xFF) || (t == VrUint16 && v > 0xFFFF) {
            return Overflow;
          }
          arPrm[i] := arPrm[i].(value := Unsigned(v));
          return Norm;
        case VrInt8 | VrInt16 | VrInt32 =>
          var scanned := sc.signed(data);
          if scanned.None? {
            return IncorrectParam;
          }
          var v := scanned.value;
          TypeBounds(t, v);
          if (t == VrInt8 && !(v <= 127 && v >= -128)) || (t == VrInt16 && !(v <= 32767 && v >= -32768)) {
            return Overflow;
          }
          arPrm[i] := arPrm[i].(value := Signed(v));
          return Norm;
        case VrDouble =>
          var scanned := sc.double(data);
          if scanned.None? {
            return IncorrectParam;
          }
          arPrm[i] := arPrm[i].(value := Double(scanned.value));
          return Norm;
        case VrChar =>
          if dataPrmCmd[1] != '\0' {
            return Overflow;
          }
          arPrm[i] := arPrm[i].(value := Letter(dataPrmCmd[0]));
          return Norm;
        case VrString =>
          arPrm[i] := arPrm[i].(value := Text(data));
          return Norm;
        case _ =>
          return IncorrectParam;
      }
    }

    method ProcParametr()
      requires Valid() && (indexCmd < |reg| || indexCmd == NO_COMMAND)
      requires exists n :: 0 <= n < MAX_SIZE_DATA && dataPrmCmd[n] == '\0'
      modifies this`status, arPrm
      ensures indexCmd == NO_COMMAND ==> status == IncorrectCmd && arPrm[..] == old(arPrm[..])
      ensures indexCmd != NO_COMMAND ==>
        var (st, prm) := Convert(sc, reg[indexCmd].types[indexParam], CString(dataPrmCmd[..]), old(arPrm[indexParam]));
        status == st && arPrm[..] == old(arPrm[..])[indexParam := prm]
    {
      if indexCmd != NO_COMMAND {
        status := GetParametrCmd(reg[indexCmd].types[indexParam], indexParam);
      } else {
        status := IncorrectCmd;
      }
    }

    method PresetCmd()
      requires arPrm.Length == MAX_PARAM
      modifies this`status, this`indexDat, arPrm
      ensures status == CmdNotLoaded && indexDat == 0 && arPrm[..] == Preset(old(arPrm[..]))
    {
      status := CmdNotLoaded;
      for i := 0 to MAX_PARAM
        invariant status == CmdNotLoaded
        invariant forall j :: 0 <= j < i ==> arPrm[j] == old(arPrm[j]).(flagDef := true)
        invariant forall j :: i <= j < MAX_PARAM ==> arPrm[j] == old(arPrm[j])
      {
        arPrm[i] := arPrm[i].(flagDef := true);
      }
      indexDat := 0;
    }

    /** A handler is only ever called for a registered command. */
    method CommandProcessing()
      requires arPrm.Length == MAX_PARAM && (status == Norm ==> indexCmd < |reg|)
      modifies this`events
      ensures events == old(events) + [Outcome(indexCmd, status, arPrm[..])]
    {
      events := events + [if status == Norm then Called(indexCmd, arPrm[..]) else Reported(status)];
    }

    /** data_prm_cmd[index_dat] = 0: the buffer is the C string of the kept text. */
    method Terminate()
      requires Valid()
      modifies dataPrmCmd
      ensures dataPrmCmd[..indexDat] == old(dataPrmCmd[..indexDat])
      ensures CString(dataPrmCmd[..]) == CString(old(dataPrmCmd[..indexDat])) && dataPrmCmd[indexDat] == '\0'
    {
      dataPrmCmd[indexDat] := '\0';
      CStringOfPrefix(dataPrmCmd[..], indexDat);
      assert dataPrmCmd[..][..indexDat] == dataPrmCmd[..indexDat];
    }

    method StoreChar(ch: char)
      requires Valid()
      modifies this`indexDat, dataPrmCmd
      ensures indexDat <= TEXT_MAX && dataPrmCmd[..indexDat] == Append(old(dataPrmCmd[..indexDat]), ch)
    {
      dataPrmCmd[indexDat] := ch;
      if indexDat < MAX_SIZE_DATA - 1 {
        indexDat := indexDat + 1;
      }
    }

    /** The same at each of the three places where a line end is met. */
    method FinishLine(ch: char)
      requires Valid() && EndsLine(ch) && (status == Norm ==> indexCmd < |reg|)
      modifies this, arPrm
      ensures Valid()
      ensures View() ==
        AfterEnd(ch, old(arPrm[..]), old(events) + [Outcome(old(indexCmd), old(status), old(arPrm[..]))])
    {
      CommandProcessing();
      if ch == '>' {
        fsm := PrcCmd;
        PresetCmd();
      } else {
        fsm := FindCmd;
      }
    }

    /** The beginning of the name's end: which command it is, and how many parameters it has. */
    method IdentifyCommand()
      requires Valid() && fsm == PrcCmd
      modifies this`indexCmd, this`numCmdParam, this`status, dataPrmCmd
      ensures Valid() && dataPrmCmd[..indexDat] == old(dataPrmCmd[..indexDat])
      ensures match Lookup(reg, CString(old(dataPrmCmd[..indexDat])))
        case Some(i) => indexCmd == i && numCmdParam == NumParams(reg[i].types) && status == Norm
        case None => indexCmd == NO_COMMAND && status == IncorrectCmd
    {
      Terminate();
      indexCmd := ScanCmd();
      if indexCmd != NO_COMMAND {
        numCmdParam := GetNumCmdParam(indexCmd);
      } else {
        numCmdParam := 0;
        status := IncorrectCmd;
      }
    }

    method EndOfName(ch: char)
      requires Valid() && fsm == PrcCmd && (ch == ' ' || EndsLine(ch))
      modifies this, dataPrmCmd, arPrm
      ensures Valid() && View() == Feed(reg, sc, old(View()), ch)
    {
      IdentifyCommand();
      if EndsLine(ch) {
        FinishLine(ch);
      } else if indexCmd == NO_COMMAND {
        CommandProcessing();
        fsm := FindCmd;
      } else if numCmdParam > 0 {
        indexParam := 0;
        fsm := FindPrm;
      } else {
        CommandProcessing();
      }
    }

    method EndOfToken(ch: char)
      requires Valid() && fsm == PrcPrm && (ch == ' ' || EndsLine(ch))
      modifies this, dataPrmCmd, arPrm
      ensures Valid() && View() == Feed(reg, sc, old(View()), ch)
    {
      Terminate();
      ProcParametr();
      if ch == ' ' {
        if indexParam < MAX_PARAM - 1 && status == Norm {
          indexParam := indexParam + 1;
          fsm := FindPrm;
        } else {
          CommandProcessing();
          fsm := FindCmd;
        }
      } else {
        FinishLine(ch);
      }
    }

    method TerminalDataProcessing(ch: char)
      requires Valid()
      modifies this, dataPrmCmd, arPrm
      ensures Valid() && View() == Feed(reg, sc, old(View()), ch)
    {
      match fsm {
        case FindCmd =>
          if ch == '>' {
            fsm := PrcCmd;
            PresetCmd();
          }
        case PrcCmd =>
          if ch == ' ' || EndsLine(ch) {
            EndOfName(ch);
          } else {
            StoreChar(ch);
          }
        case FindPrm =>
          if ch == ' ' {
            return;
          }
          if EndsLine(ch) {
            FinishLine(ch);
          } else {
            dataPrmCmd[0] := ch;
            indexDat := 1;
            fsm := PrcPrm;
          }
        case PrcPrm =>
          if ch == ' ' || EndsLine(ch) {
            EndOfToken(ch);
          } else {
            StoreChar(ch);
          }
      }
    }
  }
}

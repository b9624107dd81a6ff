/**
  Commands of the terminal and the conversion of one token into one parameter (cmd_process.c).
  What sscanf makes of a token is a parameter of the model.
 */
module Commands {
  import opened Bytes

  const MAX_PARAM := 5
  const MAX_SIZE_DATA := 30
  const MAX_SIZE_NUM_CMD := 20
  /** The characters of a token that are kept. */
  const TEXT_MAX := MAX_SIZE_DATA - 1
  const NO_COMMAND := 255

  datatype ParamType =
    | VrNone | VrUint8 | VrInt8 | VrUint16 | VrInt16 | VrUint32 | VrInt32
    | VrUint64 | VrInt64 | VrFloat | VrDouble | VrChar | VrString

  datatype Status = Norm | IncorrectParam | Overflow | CmdNotLoaded | IncorrectCmd

  /** The union of cmd_parametr_t, tagged with the member written last. */
  datatype Value = Unset | Unsigned(n: nat) | Signed(i: int) | Double(d: real) | Letter(c: char) | Text(s: string)

  datatype Param = Param(flagDef: bool, value: Value)

  /** The five parameter types that every command declares; VR_NONE ends those that count. */
  type ParamTypes = t: seq<ParamType> | |t| == MAX_PARAM
    witness [VrNone, VrNone, VrNone, VrNone, VrNone]

  datatype Command = Command(name: string, types: ParamTypes)

  type Registry = r: seq<Command> | |r| <= MAX_SIZE_NUM_CMD witness []

  type uint32 = n: int | 0 <= n < 0x1_0000_0000
  type int32 = n: int | -0x8000_0000 <= n < 0x8000_0000

  /** sscanf with "%lu", "%li" and "%la": the value, if it reports one item. */
  datatype Scanner = Scanner(
    unsigned: string -> Option<uint32>, signed: string -> Option<int32>, double: string -> Option<real>)

  /** A C string: the characters before the first NUL. */
  function CString(s: seq<char>): string {
    if s == [] || s[0] == '\0' then "" else [s[0]] + CString(s[1..])
  }

  lemma {:induction false} CStringOfPrefix(s: seq<char>, n: nat)
    requires n < |s| && s[n] == '\0'
    ensures CString(s) == CString(s[..n])
  {
    if n > 0 && s[0] != '\0' {
      CStringOfPrefix(s[1..], n - 1);
      assert s[1..][..n - 1] == s[..n][1..];
    }
  }

  predicate NoNul(s: string) {
    forall i :: 0 <= i < |s| ==> s[i] != '\0'
  }

  lemma {:induction false} CStringOfClean(s: string)
    requires NoNul(s)
    ensures CString(s) == s
  {
    if s != [] {
      CStringOfClean(s[1..]);
    }
  }

  /** What the first two characters of a buffer say about its C string. */
  lemma CStringStart(s: seq<char>)
    requires |s| >= 2
    ensures CString(s) == "" <==> s[0] == '\0'
    ensures CString(s) != "" ==> CString(s)[0] == s[0]
    ensures s[0] != '\0' ==> (|CString(s)| == 1 <==> s[1] == '\0')
  {
    assert s[1..][0] == s[1];
  }

  function Kept(s: string): string {
    s[..Min(|s|, TEXT_MAX)]
  }

  /** scan_cmd: the first command of that name. */
  function Lookup(reg: seq<Command>, name: string): (r: Option<nat>)
    ensures r.Some? ==> r.value < |reg| && reg[r.value].name == name
    ensures r.Some? ==> forall i :: 0 <= i < r.value ==> reg[i].name != name
    ensures r.None? ==> forall i :: 0 <= i < |reg| ==> reg[i].name != name
  {
    if reg == [] then None
    else if reg[0].name == name then Some(0)
    else match Lookup(reg[1..], name)
      case None => None
      case Some(i) => Some(i + 1)
  }

  /** get_num_cmd_param: the types before the first VR_NONE. */
  function NumParams(types: seq<ParamType>): (n: nat)
    ensures n <= |types| && (forall i :: 0 <= i < n ==> types[i] != VrNone) && (n < |types| ==> types[n] == VrNone)
  {
    if types == [] || types[0] == VrNone then 0 else 1 + NumParams(types[1..])
  }

  /** The bits of an integer type; 0 for every other type. */
  function Width(t: ParamType): nat {
    match t
    case VrUint8 => 8
    case VrInt8 => 8
    case VrUint16 => 16
    case VrInt16 => 16
    case VrUint32 => 32
    case VrInt32 => 32
    case _ => 0
  }

  predicate IsSigned(t: ParamType) {
    t == VrInt8 || t == VrInt16 || t == VrInt32
  }

  function Pow2(n: nat): nat {
    if n == 0 then 1 else 2 * Pow2(n - 1)
  }

  /** The integers of a type: as many as its width has codes, half of them negative if it is signed. */
  predicate InType(t: ParamType, v: int) {
    if IsSigned(t) then -(Pow2(Width(t)) as int) <= 2 * v < Pow2(Width(t)) else 0 <= v < Pow2(Width(t))
  }

  /** The status of a conversion and the union member it writes, if any. */
  function Converted(sc: Scanner, t: ParamType, s: string): (Status, Option<Value>)
    requires s != ""
  {
    if Width(t) > 0 && IsSigned(t) then
      var v := sc.signed(s);
      if v.None? then (IncorrectParam, None)
      else if InType(t, v.value) then (Norm, Some(Signed(v.value)))
      else (Overflow, None)
    else if Width(t) > 0 then
      var v := sc.unsigned(s);
      if v.None? then (IncorrectParam, None)
      else if InType(t, v.value) then (Norm, Some(Unsigned(v.value)))
      else (Overflow, None)
    else match t
      case VrDouble => if sc.double(s).Some? then (Norm, Some(Double(sc.double(s).value))) else (IncorrectParam, None)
      case VrChar => if |s| == 1 then (Norm, Some(Letter(s[0]))) else (Overflow, None)
      case VrString => (Norm, Some(Text(s)))
      case _ => (IncorrectParam, None)
  }

  /** The constants of the source: the largest value of each integer type. */
  function MaxOf(t: ParamType): int {
    match t
    case VrUint8 => 0xFF
    case VrInt8 => 127
    case VrUint16 => 0xFFFF
    case VrInt16 => 32767
    case VrUint32 => 0xFFFF_FFFF
    case VrInt32 => 0x7FFF_FFFF
    case _ => 0
  }

  /** They are the ranges of the types by width and sign. */
  lemma TypeBounds(t: ParamType, v: int)
    requires Width(t) > 0
    ensures InType(t, v) <==> (if IsSigned(t) then -MaxOf(t) - 1 else 0) <= v <= MaxOf(t)
  {
    Pow2Values();
    var p := Pow2(Width(t));
    assert p == if IsSigned(t) then 2 * (MaxOf(t) + 1) else MaxOf(t) + 1;
  }

  lemma Pow2Values()
    ensures Pow2(8) == 0x100 && Pow2(16) == 0x1_0000 && Pow2(32) == 0x1_0000_0000
  {
    Pow2Eight(0);
    Pow2Eight(8);
    Pow2Eight(16);
    Pow2Eight(24);
  }

  lemma Pow2Eight(n: nat)
    ensures Pow2(n + 8) == 0x100 * Pow2(n)
  {
    Pow2Four(n);
    Pow2Four(n + 4);
  }

  lemma Pow2Four(n: nat)
    ensures Pow2(n + 4) == 0x10 * Pow2(n)
  {
    assert Pow2(n + 2) == 4 * Pow2(n);
  }

  /** What the text s of a parameter stands for, type by type, with the ranges of the source. */
  ghost predicate StandsFor(sc: Scanner, t: ParamType, s: string, v: Value) {
    match t
    case VrUint8 => v.Unsigned? && sc.unsigned(s) == Some(v.n) && v.n <= 255
    case VrUint16 => v.Unsigned? && sc.unsigned(s) == Some(v.n) && v.n <= 65535
    case VrUint32 => v.Unsigned? && sc.unsigned(s) == Some(v.n)
    case VrInt8 => v.Signed? && sc.signed(s) == Some(v.i) && -128 <= v.i <= 127
    case VrInt16 => v.Signed? && sc.signed(s) == Some(v.i) && -32768 <= v.i <= 32767
    case VrInt32 => v.Signed? && sc.signed(s) == Some(v.i)
    case VrDouble => v.Double? && sc.double(s) == Some(v.d)
    case VrChar => v.Letter? && s == [v.c]
    case VrString => v == Text(s)
    case _ => false
  }

  /** A number that is scanned and out of range, or more than one character. */
  predicate TooBig(sc: Scanner, t: ParamType, s: string) {
    match t
    case VrUint8 => sc.unsigned(s).Some? && sc.unsigned(s).value > 255
    case VrUint16 => sc.unsigned(s).Some? && sc.unsigned(s).value > 65535
    case VrInt8 => sc.signed(s).Some? && !(-128 <= sc.signed(s).value <= 127)
    case VrInt16 => sc.signed(s).Some? && !(-32768 <= sc.signed(s).value <= 32767)
    case VrChar => |s| > 1
    case _ => false
  }

  lemma InTypeIs(t: ParamType, v: int)
    ensures t == VrUint8 ==> (InType(t, v) <==> 0 <= v <= 255)
    ensures t == VrUint16 ==> (InType(t, v) <==> 0 <= v <= 65535)
    ensures t == VrUint32 ==> (InType(t, v) <==> 0 <= v < 0x1_0000_0000)
    ensures t == VrInt8 ==> (InType(t, v) <==> -128 <= v <= 127)
    ensures t == VrInt16 ==> (InType(t, v) <==> -32768 <= v <= 32767)
    ensures t == VrInt32 ==> (InType(t, v) <==> -0x8000_0000 <= v < 0x8000_0000)
  {
    if Width(t) > 0 {
      TypeBounds(t, v);
    }
  }

  /** A conversion gives exactly the value the text stands for, or one of two errors. */
  lemma ConvertedIff(sc: Scanner, t: ParamType, s: string, v: Value)
    requires s != ""
    ensures Converted(sc, t, s) == (Norm, Some(v)) <==> StandsFor(sc, t, s, v)
    ensures Converted(sc, t, s).0 == Overflow <==> TooBig(sc, t, s)
    ensures var (st, value) := Converted(sc, t, s);
      if value.Some? then st == Norm && StandsFor(sc, t, s, value.value) else st == Overflow || st == IncorrectParam
  {
    if sc.signed(s).Some? {
      InTypeIs(t, sc.signed(s).value);
    }
    if sc.unsigned(s).Some? {
      InTypeIs(t, sc.unsigned(s).value);
    }
    assert |s| == 1 ==> s == [s[0]];
  }

  lemma ConvertedFacts(sc: Scanner, t: ParamType, s: string)
    ensures s != "" ==>
      && (forall v :: StandsFor(sc, t, s, v) <==> Converted(sc, t, s) == (Norm, Some(v)))
      && (Converted(sc, t, s).0 == Overflow <==> TooBig(sc, t, s))
      && (Converted(sc, t, s).1.Some? <==> Converted(sc, t, s).0 == Norm)
      && Converted(sc, t, s).0 in {Norm, Overflow, IncorrectParam}
  {
    if s != "" {
      forall v
        ensures StandsFor(sc, t, s, v) <==> Converted(sc, t, s) == (Norm, Some(v))
      {
        ConvertedIff(sc, t, s, v);
      }
      ConvertedIff(sc, t, s, Unset);
    }
  }

  /** What a conversion leaves in its parameter: an empty token stands for the default. */
  function Convert(sc: Scanner, t: ParamType, s: string, was: Param): (Status, Param) {
    if s == "" then (Norm, was.(flagDef := true))
    else
      var (st, v) := Converted(sc, t, s);
      (st, Param(false, if v.Some? then v.value else was.value))
  }

  // ------------------------------------------------------------------ registration

  /** array_cmd and max_num_cmd; a slot that was never filled is null. */
  class CommandTable {
    var slots: seq<Option<Command>>
    var maxNumCmd: nat

    ghost predicate Valid()
      reads this
    {
      |slots| == MAX_SIZE_NUM_CMD && maxNumCmd <= MAX_SIZE_NUM_CMD
    }

    /** No null pointer among the entries that scan_cmd visits. */
    ghost predicate AllRegistered()
      requires Valid()
      reads this
    {
      forall i :: 0 <= i < maxNumCmd ==> slots[i].Some?
    }

    /** The commands the terminal can find, which is what it runs on. */
    function Registered(): (reg: Registry)
      requires Valid() && AllRegistered()
      reads this
      ensures |reg| == maxNumCmd && forall i :: 0 <= i < maxNumCmd ==> Some(reg[i]) == slots[i]
    {
      var entries := slots[..maxNumCmd];
      seq(|entries|, i requires 0 <= i < |entries| && entries[i].Some? => entries[i].value)
    }

    constructor ()
      ensures Valid() && maxNumCmd == 0 && AllRegistered()
      ensures slots == seq(MAX_SIZE_NUM_CMD, _ => None)
    {
      slots, maxNumCmd := seq(MAX_SIZE_NUM_CMD, _ => None), 0;
    }

    /** add_terminal_cmd; true means failure, as in the source. A refused registration claims that
        all 20 entries are in use. */
    method Add(cmd: Option<Command>) returns (failed: bool)
      requires Valid()
      modifies this
      ensures Valid()
      ensures failed <==> old(maxNumCmd) == MAX_SIZE_NUM_CMD || cmd.None?
      ensures !failed ==> maxNumCmd == old(maxNumCmd) + 1 && slots == old(slots)[old(maxNumCmd) := cmd]
      ensures failed ==> maxNumCmd == MAX_SIZE_NUM_CMD && slots == old(slots)
    {
      if maxNumCmd < MAX_SIZE_NUM_CMD {
        if cmd.Some? {
          slots := slots[maxNumCmd := cmd];
          maxNumCmd := maxNumCmd + 1;
          return false;
        }
      }
      maxNumCmd := MAX_SIZE_NUM_CMD;
      return true;
    }

    /** Any sequence of registrations leaves the scan without null entries exactly if none of the
        first 20 was null; the terminal then knows those 20, in order. */
    method AddAll(cmds: seq<Option<Command>>)
      requires Valid() && maxNumCmd == 0 && slots == seq(MAX_SIZE_NUM_CMD, _ => None)
      modifies this
      ensures Valid()
      ensures AllRegistered() <==> forall i :: 0 <= i < |cmds| && i < MAX_SIZE_NUM_CMD ==> cmds[i].Some?
      ensures AllRegistered() ==>
        && |Registered()| == Min(|cmds|, MAX_SIZE_NUM_CMD)
        && forall i :: 0 <= i < |Registered()| ==> Some(Registered()[i]) == cmds[i]
    {
      ghost var bad := false;
      for k := 0 to |cmds|
        invariant Valid()
        invariant bad <==> exists i :: 0 <= i < k && i < MAX_SIZE_NUM_CMD && cmds[i].None?
        invariant !bad ==> maxNumCmd == Min(k, MAX_SIZE_NUM_CMD) && AllRegistered()
        invariant !bad ==> forall i :: maxNumCmd <= i < MAX_SIZE_NUM_CMD ==> slots[i].None?
        invariant !bad ==> forall i :: 0 <= i < maxNumCmd ==> slots[i] == cmds[i]
        invariant bad ==> maxNumCmd == MAX_SIZE_NUM_CMD && !AllRegistered()
      {
        ghost var turnsBad := !bad && k < MAX_SIZE_NUM_CMD && cmds[k].None?;
        bad := bad || turnsBad;
        var _ := Add(cmds[k]);
        assert turnsBad ==> slots[k].None?;
      }
    }
  }
}

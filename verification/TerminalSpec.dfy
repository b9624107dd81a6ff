/**
  The command language line by line, with no parser state in sight, and the proof that the byte-driven
  parser implements it on every stream of bytes.
 */
module TerminalSpec {
  import opened Bytes
  import opened Commands
  import opened Terminal

  // ------------------------------------------------------------------ the language

  datatype Mark = Blank | NonBlank | Opening | Ending

  predicate Hits(m: Mark, c: char) {
    match m
    case Blank => c == ' '
    case NonBlank => c != ' '
    case Opening => c == '>'
    case Ending => EndsLine(c)
  }

  /** How many characters come before the first one of the kind. */
  function Before(s: string, m: Mark): (n: nat)
    ensures n <= |s| && (forall i :: 0 <= i < n ==> !Hits(m, s[i])) && (n < |s| ==> Hits(m, s[n]))
  {
    if s == "" || Hits(m, s[0]) then 0 else 1 + Before(s[1..], m)
  }

  function Word(s: string): (n: nat)
    ensures n <= |s|
  {
    Before(s, Blank)
  }

  function Blanks(s: string): (n: nat)
    ensures n <= |s|
  {
    Before(s, NonBlank)
  }

  /** Neither a blank nor a line end. */
  predicate Plain(s: string) {
    forall i :: 0 <= i < |s| ==> s[i] != ' ' && !EndsLine(s[i])
  }

  predicate NoEnd(s: string) {
    forall i :: 0 <= i < |s| ==> !EndsLine(s[i])
  }

  /** The words of a string. */
  function Tokens(s: string): seq<string>
    decreases |s|
  {
    var rest := s[Blanks(s)..];
    if rest == "" then [] else [rest[..Word(rest)]] + Tokens(rest[Word(rest)..])
  }

  /** The k-th parameter and those after it, from the tokens that are left: the event they end in, and
      the parameter array afterwards. */
  function TokensMeaning(reg: Registry, sc: Scanner, cmd: nat, k: nat, prms: seq<Param>, toks: seq<string>)
    : (res: (Event, seq<Param>))
    requires cmd < |reg| && k < MAX_PARAM == |prms|
    ensures |res.1| == MAX_PARAM
    decreases |toks|
  {
    if toks == [] then (Called(cmd, prms), prms)
    else
      var (st, prm) := Convert(sc, reg[cmd].types[k], CString(Kept(toks[0])), prms[k]);
      var prms' := prms[k := prm];
      if st != Norm || k == MAX_PARAM - 1 then (Outcome(cmd, st, prms'), prms')
      else TokensMeaning(reg, sc, cmd, k + 1, prms', toks[1..])
  }

  /** What lies between '>' and the line end: a name, then its parameters. A command without parameters
      is called at every blank that follows it, which is then as good as not there. */
  function LineMeaning(reg: Registry, sc: Scanner, prms: seq<Param>, body: string): (res: (seq<Event>, seq<Param>))
    requires |prms| == MAX_PARAM
    ensures |res.1| == MAX_PARAM
    decreases |body|
  {
    var n := Word(body);
    match Lookup(reg, CString(Kept(body[..n])))
    case None => ([Reported(IncorrectCmd)], prms)
    case Some(cmd) =>
      if n == |body| then ([Called(cmd, prms)], prms)
      else if NumParams(reg[cmd].types) == 0 then
        var (events, prms') := LineMeaning(reg, sc, prms, body[..n] + body[n + 1..]);
        ([Called(cmd, prms)] + events, prms')
      else
        var (event, prms') := TokensMeaning(reg, sc, cmd, 0, prms, Tokens(body[n + 1..]));
        ([event], prms')
  }

  /** What follows the line that a string begins with; a '>' that ended it begins the next one. */
  function AfterLine(rest: string): (r: string)
    ensures |r| <= |rest|
  {
    var e := Before(rest, Ending);
    if e == |rest| then "" else if rest[e] == '>' then rest[e..] else rest[e + 1..]
  }

  function FirstLine(rest: string): string {
    rest[..Before(rest, Ending)]
  }

  /** A stream: lines that begin with '>' and end with CR, LF or the next '>'; the rest is ignored. */
  function StreamMeaning(reg: Registry, sc: Scanner, prms: seq<Param>, s: string): (res: (seq<Event>, seq<Param>))
    requires |prms| == MAX_PARAM
    ensures |res.1| == MAX_PARAM
    decreases |s|
  {
    var b := Before(s, Opening);
    if b == |s| || Before(s[b + 1..], Ending) == |s| - b - 1 then ([], prms)
    else
      var (events, prms') := LineMeaning(reg, sc, Preset(prms), FirstLine(s[b + 1..]));
      var (more, prms'') := StreamMeaning(reg, sc, prms', AfterLine(s[b + 1..]));
      (events + more, prms'')
  }

  // ------------------------------------------------------------------ the parser implements it

  lemma {:induction false} IgnoresWhileSeeking(reg: Registry, sc: Scanner, p: Parser, s: string)
    requires WellFormed(reg, p) && p.phase == FindCmd && '>' !in s
    ensures FeedAll(reg, sc, p, s) == p
    decreases |s|
  {
    if s != "" {
      IgnoresWhileSeeking(reg, sc, p, s[1..]);
    }
  }

  lemma {:induction false} SkipsBlanks(reg: Registry, sc: Scanner, p: Parser, s: string, n: nat)
    requires WellFormed(reg, p) && p.phase == FindPrm && n <= Blanks(s)
    ensures FeedAll(reg, sc, p, s) == FeedAll(reg, sc, p, s[n..])
    decreases |s|
  {
    if n > 0 {
      SkipsBlanks(reg, sc, p, s[1..], n - 1);
      assert s[1..][n - 1..] == s[n..];
    }
  }

  lemma KeptGrows(whole: string, c: char)
    ensures Append(Kept(whole), c) == Kept(whole + [c])
  {
  }

  lemma FirstMoves(whole: string, s: string, n: nat)
    requires 0 < n <= |s|
    ensures (whole + [s[0]]) + s[1..][..n - 1] == whole + s[..n]
    ensures s[1..][n - 1..] == s[n..]
    ensures Plain(s[..n]) ==> Plain(s[1..][..n - 1]) && Plain([s[0]])
  {
    assert s[..n][0] == s[0];
    var rest := s[1..][..n - 1];
    assert rest == s[..n][1..];
    assert forall i :: 0 <= i < n - 1 ==> rest[i] == s[1 + i];
  }

  /** Collecting a name or token keeps its first 29 characters. */
  lemma {:induction false} CollectsText(reg: Registry, sc: Scanner, p: Parser, whole: string, s: string, n: nat)
    requires WellFormed(reg, p) && (p.phase == PrcCmd || p.phase == PrcPrm)
    requires p.text == Kept(whole) && n <= |s| && Plain(s[..n])
    ensures FeedAll(reg, sc, p, s) == FeedAll(reg, sc, p.(text := Kept(whole + s[..n])), s[n..])
    decreases n
  {
    if n > 0 {
      FirstMoves(whole, s, n);
      KeptGrows(whole, s[0]);
      assert [s[0]][0] == s[0];
      CollectsText(reg, sc, p.(text := Kept(whole + [s[0]])), whole + [s[0]], s[1..], n - 1);
    } else {
      assert whole + s[..0] == whole;
    }
  }

  /** From the place where a parameter may begin to the end of the line. */
  lemma {:induction false} ParsesTokens(reg: Registry, sc: Scanner, p: Parser, s: string, end: char)
    requires WellFormed(reg, p) && p.phase == FindPrm
    requires NoEnd(s) && EndsLine(end)
    ensures var (event, prms) := TokensMeaning(reg, sc, p.cmd, p.k, p.prms, Tokens(s));
      FeedAll(reg, sc, p, s + [end]) == AfterEnd(end, prms, p.events + [event])
    decreases |s|
  {
    var b := Blanks(s);
    assert (s + [end])[..b] == s[..b];
    BlanksStop(s, end);
    SkipsBlanks(reg, sc, p, s + [end], b);
    var rest := s[b..];
    assert (s + [end])[b..] == rest + [end];
    if rest == "" {
      assert FeedAll(reg, sc, p, [end]) == FeedAll(reg, sc, Feed(reg, sc, p, end), [end][1..]);
    } else {
      ParsesOneToken(reg, sc, p, rest, end);
    }
  }

  lemma {:induction false} BlanksStop(s: string, end: char)
    requires EndsLine(end)
    ensures Blanks(s + [end]) == Blanks(s)
    decreases |s|
  {
    if s != "" && s[0] == ' ' {
      assert (s + [end])[1..] == s[1..] + [end];
      BlanksStop(s[1..], end);
    }
  }

  lemma FeedOne(reg: Registry, sc: Scanner, p: Parser, c: char, s: string)
    requires WellFormed(reg, p)
    ensures FeedAll(reg, sc, p, [c] + s) == FeedAll(reg, sc, Feed(reg, sc, p, c), s)
  {
    assert ([c] + s)[1..] == s;
  }

  lemma FeedLast(reg: Registry, sc: Scanner, p: Parser, c: char)
    requires WellFormed(reg, p)
    ensures FeedAll(reg, sc, p, [c]) == Feed(reg, sc, p, c)
  {
    assert [c] == [c] + "";
    FeedOne(reg, sc, p, c, "");
  }

  /** Once the parser looks for the next '>' it does not see the rest of the line. */
  lemma IgnoresRestOfLine(reg: Registry, sc: Scanner, p: Parser, s: string, end: char)
    requires WellFormed(reg, p) && p == Seeking(p.prms, p.events) && NoEnd(s) && EndsLine(end)
    ensures FeedAll(reg, sc, p, s + [end]) == AfterEnd(end, p.prms, p.events)
  {
    FeedConcat(reg, sc, p, s, [end]);
    IgnoresWhileSeeking(reg, sc, p, s);
    FeedLast(reg, sc, p, end);
  }

  lemma ReadsToken(reg: Registry, sc: Scanner, p: Parser, tok: string, tail: string)
    requires WellFormed(reg, p) && p.phase == FindPrm && tok != "" && Plain(tok)
    ensures FeedAll(reg, sc, p, tok + tail) == FeedAll(reg, sc, p.(phase := PrcPrm, text := Kept(tok)), tail)
  {
    var started := p.(phase := PrcPrm, text := [tok[0]]);
    var more := tok[1..];
    assert tok + tail == [tok[0]] + (more + tail);
    FeedOne(reg, sc, p, tok[0], more + tail);
    assert (more + tail)[..|more|] == more && (more + tail)[|more|..] == tail;
    CollectsText(reg, sc, started, [tok[0]], more + tail, |more|);
    assert [tok[0]] + more == tok;
  }

  /** The meaning of a line from the end of a token on. */
  function TokenEnd(reg: Registry, sc: Scanner, p: Parser, tail: string): (Event, seq<Param>)
    requires WellFormed(reg, p) && p.phase == PrcPrm
  {
    var (st, prm) := Convert(sc, reg[p.cmd].types[p.k], CString(p.text), p.prms[p.k]);
    var prms := p.prms[p.k := prm];
    if st != Norm || p.k == MAX_PARAM - 1 then (Outcome(p.cmd, st, prms), prms)
    else TokensMeaning(reg, sc, p.cmd, p.k + 1, prms, Tokens(tail))
  }

  lemma MeaningOfFirst(reg: Registry, sc: Scanner, p: Parser, toks: seq<string>, tail: string)
    requires WellFormed(reg, p) && p.phase == PrcPrm
    requires toks != [] && p.text == Kept(toks[0]) && toks[1..] == Tokens(tail)
    ensures TokensMeaning(reg, sc, p.cmd, p.k, p.prms, toks) == TokenEnd(reg, sc, p, tail)
  {
  }

  lemma {:induction false} ParsesOneToken(reg: Registry, sc: Scanner, p: Parser, rest: string, end: char)
    requires WellFormed(reg, p) && p.phase == FindPrm
    requires rest != "" && rest[0] != ' ' && NoEnd(rest) && EndsLine(end)
    ensures var (event, prms) := TokensMeaning(reg, sc, p.cmd, p.k, p.prms, Tokens(rest));
      FeedAll(reg, sc, p, rest + [end]) == AfterEnd(end, prms, p.events + [event])
    decreases |rest|, 0
  {
    var tok, tail := rest[..Word(rest)], rest[Word(rest)..];
    FirstToken(rest);
    var p2 := p.(phase := PrcPrm, text := Kept(tok));
    ReadsToken(reg, sc, p, tok, tail + [end]);
    EndsOneToken(reg, sc, p2, tail, end);
    MeaningOfFirst(reg, sc, p2, Tokens(rest), tail);
    SplitBefore(rest, Word(rest), end);
  }

  lemma SplitBefore(s: string, n: nat, end: char)
    requires n <= |s|
    ensures s + [end] == s[..n] + (s[n..] + [end])
  {
  }

  lemma FirstToken(rest: string)
    requires rest != "" && rest[0] != ' '
    ensures Tokens(rest) != [] && Tokens(rest)[0] == rest[..Word(rest)]
    ensures Tokens(rest)[1..] == Tokens(rest[Word(rest)..])
    ensures Word(rest) > 0
    ensures rest[Word(rest)..] != "" ==> rest[Word(rest)] == ' '
    ensures NoEnd(rest) ==> Plain(rest[..Word(rest)]) && NoEnd(rest[Word(rest)..])
  {
    assert rest[0..] == rest;
  }

  lemma HeadBlank(tail: string, end: char)
    requires tail != "" && tail[0] == ' '
    ensures tail + [end] == [' '] + (tail[1..] + [end])
    ensures NoEnd(tail) ==> NoEnd(tail[1..])
  {
  }

  lemma {:induction false} EndsOneToken(reg: Registry, sc: Scanner, p: Parser, tail: string, end: char)
    requires WellFormed(reg, p) && p.phase == PrcPrm
    requires NoEnd(tail) && EndsLine(end) && (tail != "" ==> tail[0] == ' ')
    ensures var (event, prms) := TokenEnd(reg, sc, p, tail);
      FeedAll(reg, sc, p, tail + [end]) == AfterEnd(end, prms, p.events + [event])
    decreases |tail|, 1
  {
    if tail == "" {
      assert tail + [end] == [end];
      FeedLast(reg, sc, p, end);
    } else {
      HeadBlank(tail, end);
      FeedOne(reg, sc, p, ' ', tail[1..] + [end]);
      TokensSkipBlank(tail);
      TokenThenBlank(reg, sc, p, tail[1..], end);
    }
  }

  lemma {:induction false} TokenThenBlank(reg: Registry, sc: Scanner, p: Parser, rest: string, end: char)
    requires WellFormed(reg, p) && p.phase == PrcPrm && NoEnd(rest) && EndsLine(end)
    ensures var (event, prms) := TokenEnd(reg, sc, p, rest);
      FeedAll(reg, sc, Feed(reg, sc, p, ' '), rest + [end]) == AfterEnd(end, prms, p.events + [event])
    decreases |rest| + 1, 0
  {
    var q := Feed(reg, sc, p, ' ');
    if q.phase == FindPrm {
      ParsesTokens(reg, sc, q, rest, end);
    } else {
      IgnoresRestOfLine(reg, sc, q, rest, end);
    }
  }

  lemma TokensSkipBlank(s: string)
    requires s != "" && s[0] == ' '
    ensures Tokens(s) == Tokens(s[1..])
  {
    assert s[Blanks(s)..] == s[1..][Blanks(s[1..])..];
  }

  lemma {:induction false} BeforeIs(s: string, m: Mark, n: nat)
    requires n <= |s| && (forall i :: 0 <= i < n ==> !Hits(m, s[i])) && (n < |s| ==> Hits(m, s[n]))
    ensures Before(s, m) == n
  {
    if n > 0 {
      BeforeIs(s[1..], m, n - 1);
    }
  }

  /** The meaning of a line from the end of the name on. */
  function NameEnd(reg: Registry, sc: Scanner, prms: seq<Param>, name: string, tail: string): (seq<Event>, seq<Param>)
    requires |prms| == MAX_PARAM
  {
    match Lookup(reg, CString(Kept(name)))
    case None => ([Reported(IncorrectCmd)], prms)
    case Some(cmd) =>
      if tail == "" then ([Called(cmd, prms)], prms)
      else if NumParams(reg[cmd].types) == 0 then
        var (events, prms') := LineMeaning(reg, sc, prms, name + tail[1..]);
        ([Called(cmd, prms)] + events, prms')
      else
        var (event, prms') := TokensMeaning(reg, sc, cmd, 0, prms, Tokens(tail[1..]));
        ([event], prms')
  }

  lemma NameEndIsLineMeaning(reg: Registry, sc: Scanner, prms: seq<Param>, name: string, tail: string)
    requires |prms| == MAX_PARAM && Plain(name) && (tail != "" ==> tail[0] == ' ')
    ensures LineMeaning(reg, sc, prms, name + tail) == NameEnd(reg, sc, prms, name, tail)
  {
    var body := name + tail;
    BeforeIs(body, Blank, |name|);
    assert body[..|name|] == name;
    if tail != "" {
      assert body[|name| + 1..] == tail[1..];
    }
  }

  lemma Cut(u: string, v: string, n: nat, end: char)
    requires n <= |v|
    ensures u + v == (u + v[..n]) + v[n..]
    ensures (v + [end])[..n] == v[..n] && (v + [end])[n..] == v[n..] + [end]
  {
  }

  /** From inside the name, of which u has been read, to the end of the line. */
  lemma {:induction false} ParsesLine(reg: Registry, sc: Scanner, p: Parser, u: string, v: string, end: char)
    requires WellFormed(reg, p) && p == Naming(Kept(u), p.prms, p.events)
    requires Plain(u) && NoEnd(v) && EndsLine(end)
    ensures var (events, prms) := LineMeaning(reg, sc, p.prms, u + v);
      FeedAll(reg, sc, p, v + [end]) == AfterEnd(end, prms, p.events + events)
    decreases |v|
  {
    var n := Word(v);
    var name, tail := u + v[..n], v[n..];
    Cut(u, v, n, end);
    CollectsText(reg, sc, p, u, v + [end], n);
    EndsName(reg, sc, p.(text := Kept(name)), name, tail, end);
    NameEndIsLineMeaning(reg, sc, p.prms, name, tail);
  }

  lemma {:induction false} EndsName(reg: Registry, sc: Scanner, p: Parser, name: string, tail: string, end: char)
    requires WellFormed(reg, p) && p == Naming(Kept(name), p.prms, p.events)
    requires Plain(name) && NoEnd(tail) && EndsLine(end) && (tail != "" ==> tail[0] == ' ')
    ensures var (events, prms) := NameEnd(reg, sc, p.prms, name, tail);
      FeedAll(reg, sc, p, tail + [end]) == AfterEnd(end, prms, p.events + events)
    decreases |tail|, 1
  {
    if tail == "" {
      assert tail + [end] == [end];
      FeedLast(reg, sc, p, end);
    } else {
      var q := Feed(reg, sc, p, ' ');
      HeadBlank(tail, end);
      FeedOne(reg, sc, p, ' ', tail[1..] + [end]);
      match Lookup(reg, CString(Kept(name)))
      case None => IgnoresRestOfLine(reg, sc, q, tail[1..], end);
      case Some(cmd) =>
        if NumParams(reg[cmd].types) == 0 {
          RepeatsName(reg, sc, p, name, tail, end, cmd);
        } else {
          ParsesTokens(reg, sc, q, tail[1..], end);
        }
    }
  }

  /** The odd case: a command without parameters is called, and its name goes on. */
  lemma {:induction false} RepeatsName(
    reg: Registry, sc: Scanner, p: Parser, name: string, tail: string, end: char, cmd: nat)
    requires WellFormed(reg, p) && p == Naming(Kept(name), p.prms, p.events)
    requires Plain(name) && NoEnd(tail) && EndsLine(end) && tail != "" && tail[0] == ' '
    requires Lookup(reg, CString(Kept(name))) == Some(cmd) && NumParams(reg[cmd].types) == 0
    ensures var (events, prms) := LineMeaning(reg, sc, p.prms, name + tail[1..]);
      FeedAll(reg, sc, Feed(reg, sc, p, ' '), tail[1..] + [end])
      == AfterEnd(end, prms, p.events + ([Called(cmd, p.prms)] + events))
    decreases |tail|, 0
  {
    var (events, prms) := LineMeaning(reg, sc, p.prms, name + tail[1..]);
    var q := p.(events := p.events + [Called(cmd, p.prms)]);
    HeadBlank(tail, end);
    ParsesLine(reg, sc, q, name, tail[1..], end);
    Associative(p.events, [Called(cmd, p.prms)], events);
  }

  /** Empty, or ended by CR or LF: no line is left open. */
  predicate Complete(s: string) {
    s != "" ==> s[|s| - 1] == '\r' || s[|s| - 1] == '\n'
  }

  /** The end-to-end statement for streams: on every input that leaves no line open, the parser produces
      the events, and the parameter array, that the language gives it. */
  lemma {:induction false} StreamParses(reg: Registry, sc: Scanner, prms: seq<Param>, events: seq<Event>, s: string)
    requires |prms| == MAX_PARAM && Complete(s)
    ensures var (more, prms') := StreamMeaning(reg, sc, prms, s);
      FeedAll(reg, sc, Seeking(prms, events), s) == Seeking(prms', events + more)
    decreases |s|
  {
    var p := Seeking(prms, events);
    var b := Before(s, Opening);
    if b == |s| {
      IgnoresWhileSeeking(reg, sc, p, s);
      assert events + [] == events;
    } else {
      var rest := s[b + 1..];
      CompleteSuffix(s, b + 1);
      StreamOpens(reg, sc, p, s, b);
      StreamParsesLine(reg, sc, prms, events, rest);
      var (line, prms') := LineMeaning(reg, sc, Preset(prms), FirstLine(rest));
      StreamParses(reg, sc, prms', events + line, AfterLine(rest));
      var (more, prms'') := StreamMeaning(reg, sc, prms', AfterLine(rest));
      assert StreamMeaning(reg, sc, prms, s) == (line + more, prms'');
      assert FeedAll(reg, sc, p, s) == Seeking(prms'', events + line + more);
      Associative(events, line, more);
    }
  }

  lemma Associative<T>(a: seq<T>, b: seq<T>, c: seq<T>)
    ensures a + b + c == a + (b + c)
  {
  }

  lemma CompleteSuffix(s: string, n: nat)
    requires Complete(s) && n <= |s|
    ensures Complete(s[n..])
    ensures n < |s| ==> Before(s[n..], Ending) < |s| - n
    ensures n > 0 && s != "" && s[n - 1] == '>' ==> n < |s|
  {
    if n < |s| {
      assert Hits(Ending, s[n..][|s| - n - 1]);
    }
  }

  lemma StreamOpens(reg: Registry, sc: Scanner, p: Parser, s: string, b: nat)
    requires WellFormed(reg, p) && p == Seeking(p.prms, p.events)
    requires b == Before(s, Opening) < |s|
    ensures FeedAll(reg, sc, p, s) == FeedAll(reg, sc, Naming("", Preset(p.prms), p.events), s[b + 1..])
  {
    assert s == s[..b] + (['>'] + s[b + 1..]);
    FeedConcat(reg, sc, p, s[..b], ['>'] + s[b + 1..]);
    IgnoresWhileSeeking(reg, sc, p, s[..b]);
    FeedOne(reg, sc, p, '>', s[b + 1..]);
  }

  lemma CutAt(rest: string, e: nat)
    requires e < |rest| && Complete(rest)
    ensures rest == (rest[..e] + [rest[e]]) + rest[e + 1..] && "" + rest[..e] == rest[..e]
    ensures rest[e..] == [rest[e]] + rest[e + 1..]
    ensures Complete(rest[e..]) && Complete(rest[e + 1..])
  {
  }

  /** One line of a stream, from behind its '>'. */
  lemma StreamParsesLine(reg: Registry, sc: Scanner, prms: seq<Param>, events: seq<Event>, rest: string)
    requires |prms| == MAX_PARAM && Before(rest, Ending) < |rest| && Complete(rest)
    ensures var (line, prms') := LineMeaning(reg, sc, Preset(prms), FirstLine(rest));
      FeedAll(reg, sc, Naming("", Preset(prms), events), rest)
      == FeedAll(reg, sc, Seeking(prms', events + line), AfterLine(rest))
    ensures Complete(AfterLine(rest))
  {
    var p := Naming("", Preset(prms), events);
    var e := Before(rest, Ending);
    var body, end, tail := FirstLine(rest), rest[e], rest[e + 1..];
    CutAt(rest, e);
    FeedConcat(reg, sc, p, body + [end], tail);
    ParsesLine(reg, sc, p, "", body, end);
    if end == '>' {
      var (line, prms') := LineMeaning(reg, sc, Preset(prms), body);
      FeedOne(reg, sc, Seeking(prms', events + line), '>', tail);
    }
  }

  /** A line is everything from '>' to the first CR, LF or '>', and only that last one also belongs to what
      comes next; what comes before a '>' does not matter. */
  lemma LineByLine(
    reg: Registry, sc: Scanner, prms: seq<Param>, events: seq<Event>,
    junk: string, body: string, end: char, rest: string)
    requires |prms| == MAX_PARAM && '>' !in junk
    requires '\r' !in body && '\n' !in body && '>' !in body && (end == '\r' || end == '\n' || end == '>')
    ensures var (line, prms') := LineMeaning(reg, sc, Preset(prms), body);
      FeedAll(reg, sc, Seeking(prms, events), junk + (['>'] + ((body + [end]) + rest)))
      == FeedAll(reg, sc, Seeking(prms', events + line), if end == '>' then ['>'] + rest else rest)
  {
    var p, q := Seeking(prms, events), Naming("", Preset(prms), events);
    var (line, prms') := LineMeaning(reg, sc, Preset(prms), body);
    FeedConcat(reg, sc, p, junk, ['>'] + ((body + [end]) + rest));
    IgnoresWhileSeeking(reg, sc, p, junk);
    FeedOne(reg, sc, p, '>', (body + [end]) + rest);
    FeedConcat(reg, sc, q, body + [end], rest);
    assert "" + body == body;
    ParsesLine(reg, sc, q, "", body, end);
    if end == '>' {
      FeedOne(reg, sc, Seeking(prms', events + line), '>', rest);
    }
  }

  // ------------------------------------------------------------------ what a line does

  function TokenStatus(sc: Scanner, t: ParamType, tok: string): Status {
    var s := CString(Kept(tok));
    if s == "" then Norm else Converted(sc, t, s).0
  }

  /** Every token from the k-th on that has a place in the parameter array converts. */
  ghost predicate AllConvert(sc: Scanner, types: seq<ParamType>, toks: seq<string>, k: nat)
    requires |types| == MAX_PARAM
  {
    forall i: nat :: k <= i < |toks| && i < MAX_PARAM ==> TokenStatus(sc, types[i], toks[i]) == Norm
  }

  /** The parameter array a handler sees. */
  function Filled(sc: Scanner, types: seq<ParamType>, prms: seq<Param>, toks: seq<string>, k: nat): (r: seq<Param>)
    requires |types| == MAX_PARAM == |prms|
    ensures |r| == MAX_PARAM
  {
    seq(MAX_PARAM, i requires 0 <= i < MAX_PARAM =>
      if k <= i < |toks| then Convert(sc, types[i], CString(Kept(toks[i])), prms[i]).1 else prms[i])
  }

  /** A handler is called exactly if all the tokens, at most five, convert; it sees each converted value
      in its place and every other parameter as it was. */
  lemma {:induction false} TokensCallIff(
    reg: Registry, sc: Scanner, cmd: nat, k: nat, prms: seq<Param>, toks: seq<string>)
    requires cmd < |reg| && k < MAX_PARAM == |prms| && k <= |toks|
    ensures var event := TokensMeaning(reg, sc, cmd, k, prms, toks[k..]).0;
      && (event.Called? <==> AllConvert(sc, reg[cmd].types, toks, k))
      && (event.Called? ==> event == Called(cmd, Filled(sc, reg[cmd].types, prms, toks, k)))
    decreases |toks| - k
  {
    var types := reg[cmd].types;
    if k == |toks| {
      assert Filled(sc, types, prms, toks, k) == prms;
    } else {
      var (st, prm) := Convert(sc, types[k], CString(Kept(toks[k])), prms[k]);
      assert st == TokenStatus(sc, types[k], toks[k]);
      assert toks[k..][1..] == toks[k + 1..];
      if st == Norm && k < MAX_PARAM - 1 {
        TokensCallIff(reg, sc, cmd, k + 1, prms[k := prm], toks);
        assert Filled(sc, types, prms[k := prm], toks, k + 1) == Filled(sc, types, prms, toks, k);
      } else if st == Norm {
        assert Filled(sc, types, prms, toks, k) == prms[k := prm];
      }
    }
  }

  predicate CleanAll(toks: seq<string>) {
    forall i :: 0 <= i < |toks| ==> toks[i] != "" && NoNul(toks[i])
  }

  lemma CleanCons(tok: string, toks: seq<string>)
    requires tok != "" && NoNul(tok) && CleanAll(toks)
    ensures CleanAll([tok] + toks)
  {
  }

  lemma {:induction false} TokensAreClean(s: string)
    requires NoNul(s)
    ensures CleanAll(Tokens(s))
    decreases |s|
  {
    var rest := s[Blanks(s)..];
    if rest != "" {
      var first, more := rest[..Word(rest)], rest[Word(rest)..];
      CleanParts(s);
      TokensAreClean(more);
      CleanCons(first, Tokens(more));
      assert Tokens(s) == [first] + Tokens(more);
    }
  }

  /** The first word of a string, and what follows it. */
  lemma CleanParts(s: string)
    requires NoNul(s) && s[Blanks(s)..] != ""
    ensures var rest := s[Blanks(s)..];
      rest[..Word(rest)] != "" && NoNul(rest[..Word(rest)]) && NoNul(rest[Word(rest)..]) && |rest[Word(rest)..]| < |s|
  {
    var rest := s[Blanks(s)..];
    assert rest[0] == s[Blanks(s)] && rest[0] != ' ';
  }

  /** A token without NUL stands for its first 29 characters. */
  lemma CleanToken(sc: Scanner, t: ParamType, tok: string, was: Param)
    requires tok != "" && NoNul(tok)
    ensures Kept(tok) != "" && CString(Kept(tok)) == Kept(tok)
    ensures var (st, v) := Converted(sc, t, Kept(tok));
      && TokenStatus(sc, t, tok) == st
      && (t == VrNone ==> st == IncorrectParam)
      && (st == Norm ==> v.Some? && Convert(sc, t, CString(Kept(tok)), was) == (Norm, Param(false, v.value)))
  {
    CStringOfClean(Kept(tok));
  }

  /** The tokens given fit the n declared parameters and convert. */
  ghost predicate Acceptable(sc: Scanner, types: seq<ParamType>, toks: seq<string>)
    requires |types| == MAX_PARAM
  {
    var n := NumParams(types);
    && (|toks| <= n || n == MAX_PARAM)
    && forall i: nat :: i < |toks| && i < n ==> TokenStatus(sc, types[i], toks[i]) == Norm
  }

  lemma AcceptableIff(sc: Scanner, types: seq<ParamType>, toks: seq<string>)
    requires |types| == MAX_PARAM && CleanAll(toks)
    ensures Acceptable(sc, types, toks) <==> AllConvert(sc, types, toks, 0)
  {
    var n := NumParams(types);
    if n < |toks| && n < MAX_PARAM {
      CleanToken(sc, types[n], toks[n], Param(true, Unset));
    }
  }

  /** The one event of a line with parameters. */
  function ArgsEvent(reg: Registry, sc: Scanner, prms: seq<Param>, cmd: nat, args: string): Event
    requires |prms| == MAX_PARAM && cmd < |reg|
  {
    TokensMeaning(reg, sc, cmd, 0, prms, Tokens(args)).0
  }

  lemma LineHasOneEvent(reg: Registry, sc: Scanner, prms: seq<Param>, name: string, args: string, cmd: nat)
    requires |prms| == MAX_PARAM && Plain(name)
    requires Lookup(reg, CString(Kept(name))) == Some(cmd) && NumParams(reg[cmd].types) > 0
    ensures LineMeaning(reg, sc, prms, name + [' '] + args).0 == [ArgsEvent(reg, sc, prms, cmd, args)]
  {
    var tail := [' '] + args;
    assert name + [' '] + args == name + tail && tail[1..] == args;
    NameEndIsLineMeaning(reg, sc, prms, name, tail);
  }

  /** What that event is: a handler is called exactly if no more tokens are given than the command
      declares parameters, or it declares five, and those that count convert. The handler then sees, in
      place of each token given, the value of that token's first 29 characters, and on every other
      parameter the default flag. */
  lemma ArgsCallIff(reg: Registry, sc: Scanner, prms: seq<Param>, args: string, cmd: nat)
    requires |prms| == MAX_PARAM && cmd < |reg| && NoNul(args)
    ensures var types, toks := reg[cmd].types, Tokens(args);
      var event := ArgsEvent(reg, sc, Preset(prms), cmd, args);
      && (event.Called? <==> Acceptable(sc, types, toks))
      && (event.Called? ==> event.cmd == cmd && SuppliedExactly(sc, types, prms, toks, event.prms))
  {
    var types, toks := reg[cmd].types, Tokens(args);
    assert toks[0..] == toks;
    TokensCallIff(reg, sc, cmd, 0, Preset(prms), toks);
    TokensAreClean(args);
    AcceptableIff(sc, types, toks);
    if AllConvert(sc, types, toks, 0) {
      FilledIsSupplied(sc, types, prms, toks);
    }
  }

  ghost predicate SuppliedExactly(
    sc: Scanner, types: seq<ParamType>, prms: seq<Param>, toks: seq<string>, seen: seq<Param>)
    requires |types| == MAX_PARAM == |prms|
  {
    && |seen| == MAX_PARAM
    && forall i: nat :: i < MAX_PARAM ==>
         if i < |toks| then
           && Kept(toks[i]) != ""
           && Some(seen[i].value) == Converted(sc, types[i], Kept(toks[i])).1 && !seen[i].flagDef
         else seen[i] == prms[i].(flagDef := true)
  }

  lemma FilledIsSupplied(sc: Scanner, types: seq<ParamType>, prms: seq<Param>, toks: seq<string>)
    requires |types| == MAX_PARAM == |prms| && AllConvert(sc, types, toks, 0)
    requires CleanAll(toks)
    ensures SuppliedExactly(sc, types, prms, toks, Filled(sc, types, Preset(prms), toks, 0))
  {
    forall i: nat | i < MAX_PARAM && i < |toks|
      ensures Kept(toks[i]) != ""
      ensures Converted(sc, types[i], Kept(toks[i])).1.Some?
      ensures Filled(sc, types, Preset(prms), toks, 0)[i]
           == Param(false, Converted(sc, types[i], Kept(toks[i])).1.value)
    {
      CleanToken(sc, types[i], toks[i], Preset(prms)[i]);
    }
  }

  lemma OneLineStream(reg: Registry, sc: Scanner, prms: seq<Param>, s: string, line: string)
    requires |prms| == MAX_PARAM && NoEnd(line) && s == ['>'] + (line + ['\r'])
    ensures Complete(s)
    ensures StreamMeaning(reg, sc, prms, s) == LineMeaning(reg, sc, Preset(prms), line)
  {
    var rest := line + ['\r'];
    assert s[1..] == rest;
    BeforeIs(rest, Ending, |line|);
    assert rest[..|line|] == line && rest[|line| + 1..] == "";
    assert AfterLine(rest) == "";
    var (events, prms') := LineMeaning(reg, sc, Preset(prms), line);
    assert StreamMeaning(reg, sc, prms', "") == ([], prms');
    assert events + [] == events;
  }

  /** Every token that has a place in the parameter array has reached it: the value its first 29
      characters stand for; every other parameter is the default. */
  ghost predicate HandedOver(sc: Scanner, types: ParamTypes, toks: seq<string>, seen: seq<Param>) {
    && |seen| == 5
    && forall k: nat :: k < 5 ==>
         if k < |toks| then !seen[k].flagDef && StandsFor(sc, types[k], toks[k][..Min(|toks[k]|, 29)], seen[k].value)
         else seen[k].flagDef
  }

  lemma SuppliedIsHandedOver(sc: Scanner, types: ParamTypes, prms: seq<Param>, toks: seq<string>, seen: seq<Param>)
    requires |prms| == MAX_PARAM && SuppliedExactly(sc, types, prms, toks, seen)
    ensures HandedOver(sc, types, toks, seen)
  {
    forall k: nat | k < 5 && k < |toks|
      ensures StandsFor(sc, types[k], toks[k][..Min(|toks[k]|, 29)], seen[k].value)
    {
      ConvertedFacts(sc, types[k], Kept(toks[k]));
      assert Kept(toks[k]) == toks[k][..Min(|toks[k]|, 29)];
    }
  }

  lemma LineEvent(
    reg: Registry, sc: Scanner, prms: seq<Param>, events: seq<Event>, name: string, args: string, cmd: nat)
    requires |prms| == MAX_PARAM && Plain(name) && NoEnd(args)
    requires Lookup(reg, CString(Kept(name))) == Some(cmd) && NumParams(reg[cmd].types) > 0
    ensures FeedAll(reg, sc, Seeking(prms, events), ['>'] + (name + [' '] + args + ['\r'])).events
         == events + [ArgsEvent(reg, sc, Preset(prms), cmd, args)]
  {
    var line := name + [' '] + args;
    OneLineStream(reg, sc, prms, ['>'] + (line + ['\r']), line);
    StreamParses(reg, sc, prms, events, ['>'] + (line + ['\r']));
    LineHasOneEvent(reg, sc, Preset(prms), name, args, cmd);
  }

  /** The whole way of a command line with parameters, from the bytes to the handler: exactly one event,
      which is a call of the command, with the values supplied, if and only if the tokens are acceptable. */
  lemma CommandLine(
    reg: Registry, sc: Scanner, prms: seq<Param>, events: seq<Event>, name: string, args: string, cmd: nat)
    requires |prms| == MAX_PARAM && Plain(name) && NoEnd(args) && NoNul(args)
    requires Lookup(reg, CString(Kept(name))) == Some(cmd) && NumParams(reg[cmd].types) > 0
    ensures var all := FeedAll(reg, sc, Seeking(prms, events), ['>'] + (name + [' '] + args + ['\r'])).events;
      var types, toks := reg[cmd].types, Tokens(args);
      && |all| == |events| + 1 && all[..|events|] == events
      && var event := all[|events|];
      && (event.Called? <==> Acceptable(sc, types, toks))
      && (event.Called? ==> event.cmd == cmd && SuppliedExactly(sc, types, prms, toks, event.prms)
                            && HandedOver(sc, types, toks, event.prms))
  {
    LineEvent(reg, sc, prms, events, name, args, cmd);
    ArgsCallIff(reg, sc, prms, args, cmd);
    var event := ArgsEvent(reg, sc, Preset(prms), cmd, args);
    if event.Called? {
      SuppliedIsHandedOver(sc, reg[cmd].types, prms, Tokens(args), event.prms);
    }
  }

  /** The other lines: a name that is not registered is reported, whatever follows it; a registered name
      with nothing behind it is a call with all parameters at their defaults. */
  lemma NameLine(
    reg: Registry, sc: Scanner, prms: seq<Param>, events: seq<Event>, name: string, tail: string)
    requires |prms| == MAX_PARAM && Plain(name) && NoEnd(tail) && (tail != "" ==> tail[0] == ' ')
    ensures var all := FeedAll(reg, sc, Seeking(prms, events), ['>'] + (name + tail + ['\r'])).events;
      match Lookup(reg, CString(Kept(name)))
      case None => all == events + [Reported(IncorrectCmd)]
      case Some(cmd) =>
        tail == "" ==>
          && |all| == |events| + 1 && all[..|events|] == events && all[|events|].Called? && all[|events|].cmd == cmd
          && HandedOver(sc, reg[cmd].types, [], all[|events|].prms)
  {
    OneLineStream(reg, sc, prms, ['>'] + (name + tail + ['\r']), name + tail);
    StreamParses(reg, sc, prms, events, ['>'] + (name + tail + ['\r']));
    NameEndIsLineMeaning(reg, sc, Preset(prms), name, tail);
  }

  /** What is reported for tokens that are not acceptable: the trouble of the first one that has any. */
  lemma {:induction false} FirstTroubleReported(
    reg: Registry, sc: Scanner, cmd: nat, k: nat, prms: seq<Param>, toks: seq<string>, bad: nat)
    requires cmd < |reg| && |prms| == MAX_PARAM && k <= bad < |toks| && bad < MAX_PARAM
    requires forall i: nat :: k <= i < bad ==> TokenStatus(sc, reg[cmd].types[i], toks[i]) == Norm
    requires TokenStatus(sc, reg[cmd].types[bad], toks[bad]) != Norm
    ensures TokensMeaning(reg, sc, cmd, k, prms, toks[k..]).0
         == Reported(TokenStatus(sc, reg[cmd].types[bad], toks[bad]))
    decreases bad - k
  {
    var (st, prm) := Convert(sc, reg[cmd].types[k], CString(Kept(toks[k])), prms[k]);
    assert st == TokenStatus(sc, reg[cmd].types[k], toks[k]);
    assert toks[k..][1..] == toks[k + 1..];
    if k < bad {
      FirstTroubleReported(reg, sc, cmd, k + 1, prms[k := prm], toks, bad);
    }
  }

  /** A number out of its type's range, or too long for a character, is an overflow; all else that does
      not convert, and a token too many, is incorrect. */
  lemma RefusedLine(
    reg: Registry, sc: Scanner, prms: seq<Param>, events: seq<Event>, name: string, args: string, cmd: nat, bad: nat)
    requires |prms| == MAX_PARAM && Plain(name) && NoEnd(args) && NoNul(args)
    requires Lookup(reg, CString(Kept(name))) == Some(cmd) && NumParams(reg[cmd].types) > 0
    requires bad < |Tokens(args)| && bad < MAX_PARAM
    requires forall i: nat :: i < bad ==> TokenStatus(sc, reg[cmd].types[i], Tokens(args)[i]) == Norm
    requires TokenStatus(sc, reg[cmd].types[bad], Tokens(args)[bad]) != Norm
    ensures var all := FeedAll(reg, sc, Seeking(prms, events), ['>'] + (name + [' '] + args + ['\r'])).events;
      var tok := Tokens(args)[bad];
      all == events + [Reported(
        if TooBig(sc, reg[cmd].types[bad], tok[..Min(|tok|, 29)]) then Overflow else IncorrectParam)]
  {
    var toks := Tokens(args);
    LineEvent(reg, sc, prms, events, name, args, cmd);
    assert toks[0..] == toks;
    FirstTroubleReported(reg, sc, cmd, 0, Preset(prms), toks, bad);
    TokensAreClean(args);
    CleanToken(sc, reg[cmd].types[bad], toks[bad], Param(true, Unset));
    ConvertedFacts(sc, reg[cmd].types[bad], Kept(toks[bad]));
    assert Kept(toks[bad]) == toks[bad][..Min(|toks[bad]|, 29)];
  }

  // ------------------------------------------------------------------ printed values

  /** Tokens behind one another, each with at least one blank in front. */
  function Spelled(toks: seq<string>, pads: seq<nat>): string
    requires |pads| == |toks|
  {
    if toks == [] then "" else Spaces(pads[0] + 1) + (toks[0] + Spelled(toks[1..], pads[1..]))
  }

  predicate Word1(tok: string) {
    && tok != "" && '\0' !in tok && ' ' !in tok && '\r' !in tok && '\n' !in tok && '>' !in tok
  }

  lemma SameRest(s: string, t: string)
    requires s[Blanks(s)..] == t[Blanks(t)..]
    ensures Tokens(s) == Tokens(t)
  {
  }

  lemma TokensSkipSpaces(n: nat, s: string)
    ensures Tokens(Spaces(n) + s) == Tokens(s)
  {
    var t := Spaces(n) + s;
    SpacesAreBlank(n);
    BeforeIs(t, NonBlank, n + Blanks(s));
    SameRest(t, s);
  }

  lemma TokensTakeWord(tok: string, tail: string)
    requires Word1(tok) && (tail != "" ==> tail[0] == ' ')
    ensures Tokens(tok + tail) == [tok] + Tokens(tail)
  {
    var rest := tok + tail;
    assert rest[0] == tok[0] && tok[0] in tok;
    BeforeIs(rest, Blank, |tok|);
    assert rest[..|tok|] == tok && rest[|tok|..] == tail;
    FirstToken(rest);
    assert Tokens(rest) == [Tokens(rest)[0]] + Tokens(rest)[1..];
  }

  lemma {:induction false} SpelledTokens(toks: seq<string>, pads: seq<nat>)
    requires |pads| == |toks| && forall i :: 0 <= i < |toks| ==> Word1(toks[i])
    ensures Tokens(Spelled(toks, pads)) == toks
    ensures NoEnd(Spelled(toks, pads)) && NoNul(Spelled(toks, pads))
    ensures toks != [] ==> Spelled(toks, pads) != "" && Spelled(toks, pads)[0] == ' '
  {
    if toks != [] {
      SpelledTokens(toks[1..], pads[1..]);
      SpelledFirst(pads[0], toks[0], Spelled(toks[1..], pads[1..]));
      assert [toks[0]] + toks[1..] == toks;
    }
  }

  lemma SpelledFirst(pad: nat, tok: string, more: string)
    requires Word1(tok) && NoEnd(more) && NoNul(more) && (more != "" ==> more[0] == ' ')
    ensures var s := Spaces(pad + 1) + (tok + more);
      Tokens(s) == [tok] + Tokens(more) && NoEnd(s) && NoNul(s) && s != "" && s[0] == ' '
  {
    TokensTakeWord(tok, more);
    TokensSkipSpaces(pad + 1, tok + more);
    SpelledIsClean(pad, tok, more);
  }

  lemma SpelledIsClean(pad: nat, tok: string, more: string)
    requires Word1(tok) && NoEnd(more) && NoNul(more)
    ensures var s := Spaces(pad + 1) + (tok + more); NoEnd(s) && NoNul(s) && s != "" && s[0] == ' '
  {
    SpacesAreBlank(pad + 1);
    SpelledClean(Spaces(pad + 1), tok, more);
  }

  lemma SpelledClean(pad: string, tok: string, more: string)
    requires (forall i :: 0 <= i < |pad| ==> pad[i] == ' ') && Word1(tok) && NoEnd(more) && NoNul(more)
    ensures NoEnd(pad + (tok + more)) && NoNul(pad + (tok + more))
  {
    var s := pad + (tok + more);
    forall i | 0 <= i < |s|
      ensures !EndsLine(s[i]) && s[i] != '\0'
    {
      if |pad| <= i < |pad| + |tok| {
        assert s[i] == tok[i - |pad|] && tok[i - |pad|] in tok;
      }
    }
  }

  lemma {:induction false} SpacesAreBlank(n: nat)
    ensures |Spaces(n)| == n && forall i :: 0 <= i < n ==> Spaces(n)[i] == ' '
  {
    if n > 0 {
      SpacesAreBlank(n - 1);
    }
  }

  /** A text that the scanner reads as a value of the type, short enough to be kept whole. */
  ghost predicate Prints(sc: Scanner, t: ParamType, text: string, v: Value) {
    Word1(text) && |text| <= 29 && StandsFor(sc, t, text, v)
  }

  /** The round trip: values, at most as many as the command declares parameters, printed with any blanks
      between them in a form that the scanner reads back, reach the handler as those values. */
  lemma PrintedLine(
    reg: Registry, sc: Scanner, prms: seq<Param>, events: seq<Event>, name: string, cmd: nat,
    texts: seq<string>, pads: seq<nat>, values: seq<Value>)
    requires |prms| == MAX_PARAM && Plain(name) && Lookup(reg, CString(Kept(name))) == Some(cmd)
    requires 0 < |values| == |texts| == |pads| <= NumParams(reg[cmd].types)
    requires forall k :: 0 <= k < |values| ==> Prints(sc, reg[cmd].types[k], texts[k], values[k])
    ensures var all := FeedAll(reg, sc, Seeking(prms, events), ['>'] + (name + Spelled(texts, pads) + ['\r'])).events;
      && |all| == |events| + 1 && all[..|events|] == events && all[|events|].Called? && all[|events|].cmd == cmd
      && var seen := all[|events|].prms;
      && |seen| == 5
      && (forall k :: 0 <= k < |values| ==> seen[k] == Param(false, values[k]))
      && (forall k :: |values| <= k < 5 ==> seen[k].flagDef)
  {
    var types, args := reg[cmd].types, Spelled(texts, pads)[1..];
    SpelledArgs(sc, types, texts, pads, values, name);
    PrintedAcceptable(sc, types, texts, values);
    CommandLine(reg, sc, prms, events, name, args, cmd);
    var all := FeedAll(reg, sc, Seeking(prms, events), ['>'] + (name + [' '] + args + ['\r'])).events;
    PrintedHandedOver(sc, types, texts, values, all[|events|].prms);
  }

  lemma SpelledArgs(
    sc: Scanner, types: ParamTypes, texts: seq<string>, pads: seq<nat>, values: seq<Value>, name: string)
    requires 0 < |values| == |texts| == |pads| <= 5
    requires forall k :: 0 <= k < |values| ==> Prints(sc, types[k], texts[k], values[k])
    ensures Spelled(texts, pads) != ""
    ensures var args := Spelled(texts, pads)[1..];
      Tokens(args) == texts && NoEnd(args) && NoNul(args) && name + Spelled(texts, pads) == name + [' '] + args
  {
    forall i | 0 <= i < |texts|
      ensures Word1(texts[i])
    {
      assert Prints(sc, types[i], texts[i], values[i]);
    }
    SpelledTokens(texts, pads);
    TokensSkipBlank(Spelled(texts, pads));
    AfterBlank(name, Spelled(texts, pads));
  }

  lemma AfterBlank(name: string, s: string)
    requires s != "" && s[0] == ' '
    ensures name + s == name + [' '] + s[1..]
    ensures NoEnd(s) ==> NoEnd(s[1..])
    ensures NoNul(s) ==> NoNul(s[1..])
  {
    assert s == [' '] + s[1..];
  }

  lemma PrintedAcceptable(sc: Scanner, types: ParamTypes, texts: seq<string>, values: seq<Value>)
    requires |values| == |texts| <= NumParams(types)
    requires forall k :: 0 <= k < |values| ==> Prints(sc, types[k], texts[k], values[k])
    ensures Acceptable(sc, types, texts)
  {
    forall k: nat | k < |texts|
      ensures TokenStatus(sc, types[k], texts[k]) == Norm
    {
      assert Prints(sc, types[k], texts[k], values[k]);
      assert Kept(texts[k]) == texts[k];
      CStringOfClean(texts[k]);
      ConvertedFacts(sc, types[k], texts[k]);
    }
  }

  lemma PrintedHandedOver(
    sc: Scanner, types: ParamTypes, texts: seq<string>, values: seq<Value>, seen: seq<Param>)
    requires |values| == |texts| <= 5 && HandedOver(sc, types, texts, seen)
    requires forall k :: 0 <= k < |values| ==> Prints(sc, types[k], texts[k], values[k])
    ensures forall k :: 0 <= k < |values| ==> seen[k] == Param(false, values[k])
    ensures forall k :: |values| <= k < 5 ==> seen[k].flagDef
  {
    forall k: nat | k < |values|
      ensures seen[k] == Param(false, values[k])
    {
      assert Prints(sc, types[k], texts[k], values[k]);
      assert texts[k][..Min(|texts[k]|, 29)] == texts[k];
    }
  }

  // ------------------------------------------------------------------ how many calls

  function Calls(events: seq<Event>): nat {
    if events == [] then 0 else Calls(events[..|events| - 1]) + (if events[|events| - 1].Called? then 1 else 0)
  }

  function Openings(s: string): nat {
    if s == "" then 0 else (if s[0] == '>' then 1 else 0) + Openings(s[1..])
  }

  lemma CallsAppend(events: seq<Event>, e: Event)
    ensures Calls(events + [e]) == Calls(events) + if e.Called? then 1 else 0
  {
    assert (events + [e])[..|events|] == events;
  }

  /** A line that is still open may yet cause one call. */
  function Pending(p: Parser): nat {
    if p.phase == FindCmd then 0 else 1
  }

  /** Every command that can be typed, which one with a blank in its name cannot, declares a parameter. */
  ghost predicate NoBareCommand(reg: Registry) {
    forall name :: Plain(name) && Lookup(reg, CString(Kept(name))).Some? ==>
      NumParams(reg[Lookup(reg, CString(Kept(name))).value].types) > 0
  }

  predicate NamePlain(p: Parser) {
    p.phase == PrcCmd ==> Plain(p.text)
  }

  lemma CallBoundStep(reg: Registry, sc: Scanner, p: Parser, c: char)
    requires WellFormed(reg, p) && NamePlain(p) && NoBareCommand(reg)
    ensures var q := Feed(reg, sc, p, c);
      && NamePlain(q)
      && Calls(q.events) + Pending(q) <= Calls(p.events) + Pending(p) + if c == '>' then 1 else 0
  {
    var q := Feed(reg, sc, p, c);
    assert Kept(p.text) == p.text;
    if q.events != p.events {
      var e := q.events[|p.events|];
      assert q.events == p.events + [e];
      CallsAppend(p.events, e);
    }
  }

  /** Then no input at any point has caused more handler calls than it has opened lines. */
  lemma {:induction false} CallBound(reg: Registry, sc: Scanner, p: Parser, s: string)
    requires WellFormed(reg, p) && NamePlain(p) && NoBareCommand(reg)
    ensures var q := FeedAll(reg, sc, p, s);
      Calls(q.events) + Pending(q) <= Calls(p.events) + Pending(p) + Openings(s)
    decreases |s|
  {
    if s != "" {
      CallBoundStep(reg, sc, p, s[0]);
      CallBound(reg, sc, Feed(reg, sc, p, s[0]), s[1..]);
    }
  }

  ghost predicate CallsBounded(reg: Registry, sc: Scanner, prms: seq<Param>)
    requires |prms| == MAX_PARAM
  {
    forall s :: Calls(FeedAll(reg, sc, Seeking(prms, []), s).events) <= Openings(s)
  }

  /** The calls are bounded by the lines opened on every input exactly if every command that can be typed
      declares a parameter. */
  lemma CallsBoundedIff(reg: Registry, sc: Scanner, prms: seq<Param>)
    requires |prms| == MAX_PARAM
    ensures CallsBounded(reg, sc, prms) <==> NoBareCommand(reg)
  {
    if NoBareCommand(reg) {
      forall s
        ensures Calls(FeedAll(reg, sc, Seeking(prms, []), s).events) <= Openings(s)
      {
        CallBound(reg, sc, Seeking(prms, []), s);
      }
    } else {
      var name :| Plain(name) && Lookup(reg, CString(Kept(name))).Some?
                  && NumParams(reg[Lookup(reg, CString(Kept(name))).value].types) == 0;
      BareCommandCalledTwice(reg, sc, prms, name, Lookup(reg, CString(Kept(name))).value);
    }
  }

  /** One line, two calls. */
  lemma BareCommandCalledTwice(reg: Registry, sc: Scanner, prms: seq<Param>, name: string, cmd: nat)
    requires |prms| == MAX_PARAM && Plain(name)
    requires Lookup(reg, CString(Kept(name))) == Some(cmd) && NumParams(reg[cmd].types) == 0
    ensures var s := ['>'] + (name + Spaces(1) + ['\r']);
      Openings(s) == 1 && Calls(FeedAll(reg, sc, Seeking(prms, []), s).events) == 2
  {
    var s := ['>'] + (name + Spaces(1) + ['\r']);
    BareCommandEvents(reg, sc, prms, name, cmd);
    CallsOfTwo(Called(cmd, Preset(prms)));
    assert s[1..] == name + Spaces(1) + ['\r'];
    NoOpenings(name + Spaces(1) + ['\r']);
  }

  lemma BareCommandEvents(reg: Registry, sc: Scanner, prms: seq<Param>, name: string, cmd: nat)
    requires |prms| == MAX_PARAM && Plain(name)
    requires Lookup(reg, CString(Kept(name))) == Some(cmd) && NumParams(reg[cmd].types) == 0
    ensures Spaces(1) == " "
    ensures FeedAll(reg, sc, Seeking(prms, []), ['>'] + (name + Spaces(1) + ['\r'])).events
         == Repeated(Called(cmd, Preset(prms)), 2)
  {
    var line := name + Spaces(1);
    assert Spaces(1) == " ";
    OneLineStream(reg, sc, prms, ['>'] + (line + ['\r']), line);
    BlanksRepeatCall(reg, sc, Preset(prms), name, 1, cmd);
    StreamParses(reg, sc, prms, [], ['>'] + (line + ['\r']));
    NothingBefore(Repeated(Called(cmd, Preset(prms)), 2));
  }

  lemma NothingBefore(events: seq<Event>)
    ensures [] + events == events
  {
  }

  lemma CallsOfTwo(e: Event)
    requires e.Called?
    ensures Calls(Repeated(e, 2)) == 2
  {
    assert Repeated(e, 2) == [e] + [e] && [] + [e] == [e];
    CallsAppend([e], e);
    CallsAppend([], e);
  }

  lemma {:induction false} NoOpenings(s: string)
    requires '>' !in s
    ensures Openings(s) == 0
  {
    if s != "" {
      NoOpenings(s[1..]);
    }
  }

  function Spaces(k: nat): string {
    if k == 0 then "" else [' '] + Spaces(k - 1)
  }

  /** Where the bound fails, it fails by any amount: a command that declares no parameter, typed with k
      blanks behind it, is called k + 1 times. */
  lemma {:induction false} BlanksRepeatCall(
    reg: Registry, sc: Scanner, prms: seq<Param>, name: string, k: nat, cmd: nat)
    requires |prms| == MAX_PARAM && Plain(name)
    requires Lookup(reg, CString(Kept(name))) == Some(cmd) && NumParams(reg[cmd].types) == 0
    ensures LineMeaning(reg, sc, prms, name + Spaces(k)) == (Repeated(Called(cmd, prms), k + 1), prms)
  {
    NameEndIsLineMeaning(reg, sc, prms, name, Spaces(k));
    if k > 0 {
      BlanksRepeatCall(reg, sc, prms, name, k - 1, cmd);
      assert Spaces(k)[1..] == Spaces(k - 1);
      assert Repeated(Called(cmd, prms), k + 1) == [Called(cmd, prms)] + Repeated(Called(cmd, prms), k);
    } else {
      assert Repeated(Called(cmd, prms), 1) == [Called(cmd, prms)];
    }
  }

  function Repeated(e: Event, n: nat): (r: seq<Event>)
    ensures |r| == n && forall i :: 0 <= i < n ==> r[i] == e
  {
    if n == 0 then [] else [e] + Repeated(e, n - 1)
  }
}

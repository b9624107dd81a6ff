/**
  The data transfers of the FTP server (the STOR, RETR and REST cases of ftpd.c) over abstract files
  and sockets: f_read and f_write work at the file position, recv delivers pieces of a byte stream.
 */
module FtpTransfer {
  import opened Bytes

  const FTP_BUFFER_SIZE := 4096

  class File {
    var content: seq<byte>
    var pos: nat

    /** f_open with FA_OPEN_ALWAYS or FA_READ: the old content stays, the position is 0. */
    constructor (content: seq<byte>)
      ensures this.content == content && pos == 0
    {
      this.content, pos := content, 0;
    }

    method Seek(p: nat)
      requires p <= |content|
      modifies this`pos
      ensures pos == p
    {
      pos := p;
    }

    method Read(size: nat) returns (data: seq<byte>)
      requires pos <= |content|
      modifies this`pos
      ensures pos == Min(old(pos) + size, |content|) && data == content[old(pos)..pos]
    {
      var end := Min(pos + size, |content|);
      data := content[pos..end];
      pos := end;
    }

    method Write(data: seq<byte>)
      requires pos <= |content|
      modifies this
      ensures pos == old(pos) + |data| && pos <= |content|
      ensures content == old(content)[..old(pos)] + data + old(content)[Min(pos, |old(content)|)..]
    {
      content := content[..pos] + data + content[Min(pos + |data|, |content|)..];
      pos := pos + |data|;
    }
  }

  /** What a data socket gives from one select and recv to the next. */
  datatype Arrival = Data(bytes: seq<byte>) | EndOfData | Broken | TimedOut

  /** The bytes before the first arrival that is not data. */
  function Received(arrivals: seq<Arrival>): seq<byte> {
    if arrivals == [] || !arrivals[0].Data? then [] else arrivals[0].bytes + Received(arrivals[1..])
  }

  /** How the stream ends; one that stops arriving times out. */
  function Ending(arrivals: seq<Arrival>): Arrival {
    if arrivals == [] then TimedOut else if arrivals[0].Data? then Ending(arrivals[1..]) else arrivals[0]
  }

  /** New data laid over the beginning of an old file. */
  function Over(old_: seq<byte>, data: seq<byte>): seq<byte> {
    data + old_[Min(|data|, |old_|)..]
  }

  lemma OverGrows(old_: seq<byte>, a: seq<byte>, b: seq<byte>)
    ensures Over(old_, a)[..|a|] + b + Over(old_, a)[Min(|a| + |b|, |Over(old_, a)|)..] == Over(old_, a + b)
  {
  }

  /** The file is what was sent exactly if it was no longer before: STOR does not truncate. */
  lemma StoredIsSentIff(old_: seq<byte>, data: seq<byte>)
    ensures Over(old_, data) == data <==> |data| >= |old_|
    ensures |Over(old_, data)| == Max(|data|, |old_|)
    ensures Over(old_, data)[..|data|] == data
    ensures |data| < |old_| ==> Over(old_, data)[|data|..] == old_[|data|..]
  {
    if |data| < |old_| {
      assert |Over(old_, data)| == |old_|;
    }
  }

  /** The i-th arrival is the data from the i-th cut to the next. */
  predicate IsPiece(arrivals: seq<Arrival>, data: seq<byte>, cuts: seq<nat>, i: nat)
    requires i < |arrivals| && i + 1 < |cuts|
  {
    cuts[i] <= cuts[i + 1] <= |data| && arrivals[i] == Data(data[cuts[i]..cuts[i + 1]])
  }

  /** These n arrivals are the data, cut at these places. */
  ghost predicate IsCut(arrivals: seq<Arrival>, n: nat, data: seq<byte>, cuts: seq<nat>) {
    && n <= |arrivals| && |cuts| == n + 1 && cuts[0] == 0 && cuts[n] == |data|
    && forall i: nat :: i < n ==> IsPiece(arrivals, data, cuts, i)
  }

  lemma {:induction false} CutIsReceived(arrivals: seq<Arrival>, n: nat, data: seq<byte>, cuts: seq<nat>, i: nat)
    requires IsCut(arrivals, n, data, cuts) && i <= n && n < |arrivals| && !arrivals[n].Data?
    ensures cuts[i] <= |data|
    ensures Received(arrivals[i..]) == data[cuts[i]..] && Ending(arrivals[i..]) == arrivals[n]
    decreases n - i
  {
    if i < n {
      assert IsPiece(arrivals, data, cuts, i);
      CutIsReceived(arrivals, n, data, cuts, i + 1);
      assert arrivals[i..][1..] == arrivals[i + 1..];
      assert arrivals[i..][0] == Data(data[cuts[i]..cuts[i + 1]]);
    } else {
      assert arrivals[n..][0] == arrivals[n];
    }
  }

  /** How the data is cut does not matter, nor what would come behind its end. */
  lemma CutsDoNotMatter(arrivals: seq<Arrival>, n: nat, data: seq<byte>, cuts: seq<nat>)
    requires IsCut(arrivals, n, data, cuts) && n < |arrivals| && !arrivals[n].Data?
    ensures Received(arrivals) == data && Ending(arrivals) == arrivals[n]
  {
    CutIsReceived(arrivals, n, data, cuts, 0);
    assert arrivals[0..] == arrivals && data[0..] == data;
  }

  /** What has been received, in the middle of a transfer. */
  lemma {:induction false} ReceivedSplits(arrivals: seq<Arrival>, i: nat)
    requires i <= |arrivals| && forall k :: 0 <= k < i ==> arrivals[k].Data?
    ensures Received(arrivals) == Received(arrivals[..i]) + Received(arrivals[i..])
    ensures Ending(arrivals) == Ending(arrivals[i..])
  {
    if i > 0 {
      ReceivedSplits(arrivals[1..], i - 1);
      assert arrivals[..i][1..] == arrivals[1..][..i - 1];
      assert arrivals[1..][i - 1..] == arrivals[i..];
    } else {
      assert arrivals[0..] == arrivals;
    }
  }

  /** Any data, however it is cut, that is followed by the end of the connection has been stored over the
      beginning of the old file, which is then finished and closed. */
  ghost predicate LiesOver(
    old_: seq<byte>, now: seq<byte>, arrivals: seq<Arrival>, finished: bool, closed: bool)
  {
    forall n: nat, data, cuts :: IsCut(arrivals, n, data, cuts) && n < |arrivals| && arrivals[n] == EndOfData ==>
      && finished && closed && |now| == Max(|data|, |old_|) && now[..|data|] == data
      && (|data| < |old_| ==> now[|data|..] == old_[|data|..])
  }

  lemma StoredLiesOver(old_: seq<byte>, arrivals: seq<Arrival>, finished: bool, closed: bool)
    requires Ending(arrivals) == EndOfData ==> finished && closed
    ensures LiesOver(old_, Over(old_, Received(arrivals)), arrivals, finished, closed)
  {
    forall n: nat, data, cuts | IsCut(arrivals, n, data, cuts) && n < |arrivals| && arrivals[n] == EndOfData
      ensures Received(arrivals) == data && Ending(arrivals) == EndOfData
    {
      CutsDoNotMatter(arrivals, n, data, cuts);
    }
    StoredIsSentIff(old_, Received(arrivals));
  }

  class Session {
    /** conn->offset */
    var offset: nat

    constructor ()
      ensures offset == 0
    {
      offset := 0;
    }

    method Rest(position: int)
      modifies this
      ensures offset == if position >= 0 then position else old(offset)
    {
      if position >= 0 {
        offset := position;
      }
    }

    /** STOR. The reply says "finished", and the file is closed, only where the peer closed the data
        connection; the restart offset has no influence. */
    method Stor(file: File, arrivals: seq<Arrival>) returns (finished: bool, closed: bool)
      requires file.pos == 0
      modifies file
      ensures file.content == Over(old(file.content), Received(arrivals))
      ensures finished <==> Ending(arrivals) == EndOfData
      ensures closed <==> Ending(arrivals) != TimedOut
      ensures LiesOver(old(file.content), file.content, arrivals, finished, closed)
    {
      finished, closed := false, false;
      var i := 0;
      ghost var got: seq<byte> := [];
      ghost var before := file.content;
      while i < |arrivals|
        invariant i <= |arrivals| && forall k :: 0 <= k < i ==> arrivals[k].Data?
        invariant got == Received(arrivals[..i])
        invariant file.content == Over(before, got) && file.pos == |got|
        invariant !finished && !closed
      {
        ReceivedSplits(arrivals, i);
        assert arrivals[i..] == [arrivals[i]] + arrivals[i + 1..];
        match arrivals[i] {
          case Data(bytes) =>
            OverGrows(before, got, bytes);
            file.Write(bytes);
            ReceivedSplits(arrivals[..i + 1], i);
            assert arrivals[..i + 1][..i] == arrivals[..i] && arrivals[..i + 1][i..] == [arrivals[i]];
            assert [arrivals[i]][1..] == [] && bytes + [] == bytes;
            got := got + bytes;
            i := i + 1;
          case EndOfData =>
            finished, closed := true, true;
            break;
          case Broken =>
            closed := true;
            break;
          case TimedOut =>
            break;
        }
      }
      ReceivedSplits(arrivals, i);
      assert got + [] == got;
      StoredLiesOver(before, arrivals, finished, closed);
    }

    /** RETR: the pieces sent are the file from the restart offset, if that lies inside it. The offset
        stays for the next retrieval. */
    method Retr(file: File) returns (pieces: seq<seq<byte>>)
      requires file.pos == 0
      modifies file
      ensures file.content == old(file.content) && offset == old(offset)
      ensures Joined(pieces) == file.content[StartOf(offset, |file.content|)..]
      ensures FullButLast(pieces)
      // What is sent, put behind the part in front of the restart offset, is the file.
      ensures 0 < offset < |file.content| ==> file.content[..offset] + Joined(pieces) == file.content
      ensures offset == 0 || offset >= |file.content| ==> Joined(pieces) == file.content
    {
      pieces := [];
      var size := |file.content|;
      if offset > 0 && offset < size {
        file.Seek(offset);
      }
      ghost var start := file.pos;
      assert start == StartOf(offset, size);
      var numBytes := 1;
      while numBytes > 0
        invariant start <= file.pos <= size == |file.content| && file.content == old(file.content)
        invariant PiecesOf(pieces, file.content, start, file.pos)
        invariant numBytes >= 0 && (numBytes == 0 ==> file.pos == size)
        decreases size - file.pos, numBytes
      {
        ghost var was := file.pos;
        var piece := file.Read(FTP_BUFFER_SIZE);
        numBytes := |piece|;
        if numBytes > 0 {
          NextPiece(pieces, file.content, start, was, file.pos);
          pieces := pieces + [piece];
        }
      }
      assert file.pos == |file.content|;
      SlicesJoin(file.content, start, file.pos, |file.content|);
      ResumeLaw(file.content, offset);
    }

    /** What RETR sends, stored into a new file, is the file again, or its end from the restart offset. */
    method SendBack(file: File, copy: File)
      requires file != copy && file.pos == copy.pos == 0 && copy.content == []
      modifies file, copy
      ensures file.content == old(file.content) && offset == old(offset)
      ensures offset == 0 || offset >= |file.content| ==> copy.content == file.content
      ensures 0 < offset < |file.content| ==> file.content[..offset] + copy.content == file.content
    {
      var pieces := Retr(file);
      PiecesAreCut(pieces);
      var finished, closed := Stor(copy, Arriving(pieces));
      assert copy.content[..|copy.content|] == copy.content;
    }

    method ServeOne(r: Request) returns (outcome: seq<byte>)
      modifies this
      ensures outcome == Outcome(old(offset), r) && offset == NextOffset(old(offset), r)
    {
      outcome := [];
      match r {
        case Restart(position) =>
          Rest(position);
        case Retrieve(None) =>
          offset := 0;
        case Retrieve(Some(content)) =>
          var file := new File(content);
          var pieces := Retr(file);
          outcome := Joined(pieces);
        case Store(content, arrivals) =>
          var file := new File(content);
          var finished, closed := Stor(file, arrivals);
          outcome := file.content;
      }
    }

    /** The transfer requests of one connection, one after the other. */
    method Serve(requests: seq<Request>) returns (outcomes: seq<seq<byte>>)
      modifies this
      ensures offset == OffsetAfter(old(offset), requests)
      ensures |outcomes| == |requests| && Served(old(offset), requests, outcomes)
    {
      outcomes := [];
      for k := 0 to |requests|
        invariant |outcomes| == k && offset == OffsetAfter(old(offset), requests[..k])
        invariant Served(old(offset), requests, outcomes)
      {
        OffsetAfterNext(old(offset), requests, k);
        var outcome := ServeOne(requests[k]);
        ServedNext(old(offset), requests, outcomes, outcome);
        outcomes := outcomes + [outcome];
      }
      assert requests[..|requests|] == requests;
    }
  }

  // ------------------------------------------------------------------ restart positions

  /** Where a retrieval begins. */
  function StartOf(offset: nat, size: nat): nat {
    if 0 < offset < size then offset else 0
  }

  lemma ResumeLaw(content: seq<byte>, p: nat)
    ensures 0 < p < |content| ==> content[..p] + content[StartOf(p, |content|)..] == content
    ensures p == 0 || p >= |content| ==> content[StartOf(p, |content|)..] == content
  {
    assert content[0..] == content;
  }

  /** REST, RETR of a file (None: it is no regular file) and STOR over a file. */
  datatype Request =
    | Restart(position: int)
    | Retrieve(file: Option<seq<byte>>)
    | Store(old_: seq<byte>, arrivals: seq<Arrival>)

  /** The bytes a retrieval sends, or the file that a store leaves. */
  function Outcome(offset: nat, r: Request): seq<byte> {
    match r
    case Restart(_) => []
    case Retrieve(None) => []
    case Retrieve(Some(content)) => content[StartOf(offset, |content|)..]
    case Store(content, arrivals) => Over(content, Received(arrivals))
  }

  function NextOffset(offset: nat, r: Request): nat {
    match r
    case Restart(position) => if position >= 0 then position else offset
    case Retrieve(None) => 0
    case _ => offset
  }

  function OffsetAfter(offset: nat, requests: seq<Request>): nat {
    if requests == [] then offset
    else NextOffset(OffsetAfter(offset, requests[..|requests| - 1]), requests[|requests| - 1])
  }

  /** Each request so far has had the outcome that the restart offset of the moment gives it. */
  ghost predicate Served(offset: nat, requests: seq<Request>, outcomes: seq<seq<byte>>) {
    && |outcomes| <= |requests|
    && forall i: nat :: i < |outcomes| ==> outcomes[i] == OutcomeAt(offset, requests, i)
  }

  /** The outcome of the i-th request. */
  function OutcomeAt(offset: nat, requests: seq<Request>, i: nat): seq<byte>
    requires i < |requests|
  {
    Outcome(OffsetAfter(offset, requests[..i]), requests[i])
  }

  lemma ServedNext(offset: nat, requests: seq<Request>, outcomes: seq<seq<byte>>, outcome: seq<byte>)
    requires Served(offset, requests, outcomes) && |outcomes| < |requests|
    requires outcome == OutcomeAt(offset, requests, |outcomes|)
    ensures Served(offset, requests, outcomes + [outcome])
  {
  }

  lemma OffsetAfterNext(offset: nat, requests: seq<Request>, k: nat)
    requires k < |requests|
    ensures OffsetAfter(offset, requests[..k + 1]) == NextOffset(OffsetAfter(offset, requests[..k]), requests[k])
  {
    assert requests[..k + 1][..k] == requests[..k];
  }

  /** A transfer, or a REST with a negative position: requests that have no say in where to begin. */
  predicate Indifferent(r: Request) {
    match r
    case Restart(position) => position < 0
    case Retrieve(file) => file.Some?
    case Store(_, _) => true
  }

  /** A restart position is not used up: every retrieval, however many there are, begins at the latest one
      that was given, until a retrieval of something that is no file clears it. */
  lemma {:induction false} LatestRestartDecides(offset: nat, requests: seq<Request>, j: nat)
    requires j < |requests| && !Indifferent(requests[j])
    requires forall k :: j < k < |requests| ==> Indifferent(requests[k])
    ensures requests[j].Restart? ==> OffsetAfter(offset, requests) == requests[j].position
    ensures requests[j].Retrieve? ==> OffsetAfter(offset, requests) == 0
  {
    if j < |requests| - 1 {
      LatestRestartDecides(offset, requests[..|requests| - 1], j);
    }
  }

  /** Without any, it begins where the connection stands. */
  lemma {:induction false} NoRestartKeepsOffset(offset: nat, requests: seq<Request>)
    requires forall k :: 0 <= k < |requests| ==> Indifferent(requests[k])
    ensures OffsetAfter(offset, requests) == offset
  {
    if requests != [] {
      NoRestartKeepsOffset(offset, requests[..|requests| - 1]);
    }
  }

  /** What a retrieval at any offset sends, put behind the part of the file in front of the offset, is the
      file; at an offset that does not lie strictly inside, it is the file. */
  lemma RetrievalResumes(offset: nat, content: seq<byte>)
    ensures 0 < offset < |content| ==> content[..offset] + Outcome(offset, Retrieve(Some(content))) == content
    ensures offset == 0 || offset >= |content| ==> Outcome(offset, Retrieve(Some(content))) == content
  {
    ResumeLaw(content, offset);
  }

  /** What retrievals behind a REST send, put behind the part of the file in front of the position, is the
      file; for a position that does not lie strictly inside, it is the file. That goes for a second
      retrieval as for the first. */
  lemma RestartAppliesTwice(offset: nat, before: seq<Request>, p: nat, content: seq<byte>, outcomes: seq<seq<byte>>)
    requires Served(offset, before + [Restart(p), Retrieve(Some(content)), Retrieve(Some(content))], outcomes)
    requires |outcomes| == |before| + 3
    ensures outcomes[|before| + 1] == outcomes[|before| + 2]
    ensures 0 < p < |content| ==> content[..p] + outcomes[|before| + 2] == content
    ensures p == 0 || p >= |content| ==> outcomes[|before| + 2] == content
  {
    var retrieve, n := Retrieve(Some(content)), |before|;
    var requests := before + [Restart(p), retrieve, retrieve];
    assert requests[n] == Restart(p) && requests[n + 1] == requests[n + 2] == retrieve;
    OffsetAfterNext(offset, requests, n);
    OffsetAfterNext(offset, requests, n + 1);
    assert outcomes[n + 1] == OutcomeAt(offset, requests, n + 1);
    assert outcomes[n + 2] == OutcomeAt(offset, requests, n + 2);
    ResumeLaw(content, p);
  }

  // ------------------------------------------------------------------ the pieces of a retrieval

  /** Pieces of 4096 bytes, the last one possibly shorter; none is empty. */
  predicate FullButLast(pieces: seq<seq<byte>>) {
    forall i :: 0 <= i < |pieces| ==>
      0 < |pieces[i]| <= FTP_BUFFER_SIZE && (i < |pieces| - 1 ==> |pieces[i]| == FTP_BUFFER_SIZE)
  }

  lemma SlicesJoin(s: seq<byte>, a: nat, b: nat, c: nat)
    requires a <= b <= c <= |s|
    ensures s[a..b] + s[b..c] == s[a..c]
    ensures c == |s| ==> s[a..c] == s[a..]
  {
  }

  function Joined(pieces: seq<seq<byte>>): seq<byte> {
    if pieces == [] then [] else Joined(pieces[..|pieces| - 1]) + pieces[|pieces| - 1]
  }

  lemma JoinedAppend(pieces: seq<seq<byte>>, piece: seq<byte>)
    ensures Joined(pieces + [piece]) == Joined(pieces) + piece
  {
    assert (pieces + [piece])[..|pieces|] == pieces;
  }

  /** What has been sent of a file from a position to another. */
  ghost predicate PiecesOf(pieces: seq<seq<byte>>, content: seq<byte>, start: nat, end: nat) {
    && start <= end <= |content| && Joined(pieces) == content[start..end] && FullButLast(pieces)
    && (pieces != [] && end < |content| ==> |pieces[|pieces| - 1]| == FTP_BUFFER_SIZE)
  }

  lemma NextPiece(pieces: seq<seq<byte>>, content: seq<byte>, start: nat, mid: nat, end: nat)
    requires PiecesOf(pieces, content, start, mid) && mid < end == Min(mid + FTP_BUFFER_SIZE, |content|)
    ensures PiecesOf(pieces + [content[mid..end]], content, start, end)
  {
    JoinedAppend(pieces, content[mid..end]);
    SlicesJoin(content, start, mid, end);
  }

  /** The pieces as they arrive at the other end, which then closes the connection. */
  function Arriving(pieces: seq<seq<byte>>): (arrivals: seq<Arrival>)
    ensures |arrivals| == |pieces| + 1 && arrivals[|pieces|] == EndOfData
    ensures forall i :: 0 <= i < |pieces| ==> arrivals[i] == Data(pieces[i])
  {
    seq(|pieces|, i requires 0 <= i < |pieces| => Data(pieces[i])) + [EndOfData]
  }

  /** Where the pieces end in what they are together. */
  function Ends(pieces: seq<seq<byte>>): (cuts: seq<nat>)
    ensures |cuts| == |pieces| + 1
  {
    if pieces == [] then [0] else Ends(pieces[..|pieces| - 1]) + [|Joined(pieces)|]
  }

  lemma {:induction false} EndsAt(pieces: seq<seq<byte>>, i: nat)
    requires i <= |pieces|
    ensures Ends(pieces)[i] == |Joined(pieces[..i])| <= |Joined(pieces)|
    ensures Joined(pieces)[..|Joined(pieces[..i])|] == Joined(pieces[..i])
  {
    if i < |pieces| {
      EndsAt(pieces[..|pieces| - 1], i);
      assert pieces[..|pieces| - 1][..i] == pieces[..i];
    } else {
      assert pieces[..i] == pieces;
    }
  }

  lemma PieceIsCut(pieces: seq<seq<byte>>, i: nat)
    requires i < |pieces|
    ensures IsPiece(Arriving(pieces), Joined(pieces), Ends(pieces), i)
  {
    EndsAt(pieces, i);
    EndsAt(pieces, i + 1);
    assert pieces[..i + 1][..i] == pieces[..i];
    var part := Joined(pieces[..i + 1]);
    assert part == Joined(pieces[..i]) + pieces[i];
    assert Joined(pieces)[Ends(pieces)[i]..Ends(pieces)[i + 1]] == Joined(pieces)[..|part|][Ends(pieces)[i]..];
  }

  lemma EndsBounds(pieces: seq<seq<byte>>)
    ensures Ends(pieces)[0] == 0 && Ends(pieces)[|pieces|] == |Joined(pieces)|
  {
    EndsAt(pieces, 0);
    EndsAt(pieces, |pieces|);
    assert pieces[..|pieces|] == pieces && pieces[..0] == [];
  }

  lemma PiecesAreCut(pieces: seq<seq<byte>>)
    ensures IsCut(Arriving(pieces), |pieces|, Joined(pieces), Ends(pieces))
  {
    EndsBounds(pieces);
    forall i: nat | i < |pieces|
      ensures IsPiece(Arriving(pieces), Joined(pieces), Ends(pieces), i)
    {
      PieceIsCut(pieces, i);
    }
  }

  /** The i-th of the pieces is the i-th 4096 bytes of what they are together. */
  lemma {:induction false} PieceAt(pieces: seq<seq<byte>>, i: nat)
    requires FullButLast(pieces) && i < |pieces|
    ensures 4096 * (|pieces| - 1) < |Joined(pieces)| <= 4096 * |pieces|
    ensures pieces[i] == Joined(pieces)[4096 * i..Min(4096 * (i + 1), |Joined(pieces)|)]
  {
    var before := pieces[..|pieces| - 1];
    assert FullButLast(before);
    if before != [] {
      assert |before[|before| - 1]| == 4096;
      PieceAt(before, if i < |before| then i else 0);
      FullPieces(before);
    }
  }

  lemma {:induction false} FullPieces(pieces: seq<seq<byte>>)
    requires forall i :: 0 <= i < |pieces| ==> |pieces[i]| == 4096
    ensures |Joined(pieces)| == 4096 * |pieces|
  {
    if pieces != [] {
      FullPieces(pieces[..|pieces| - 1]);
    }
  }
}
